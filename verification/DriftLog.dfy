/** The stage-3 drift record: a bounded JSONL log, appended to by rewriting it through a
    temporary file and a rename. A file's contents are its bytes, one char each. */
module DriftLog {
  import opened Wrappers

  const CAP := 1000

  /** bufio.Scanner's buffer is 1 MiB, newline included. */
  const LONGEST_LINE := 1048575

  // ---------------------------------------------------------------- lines

  function PrintLines(lines: seq<string>): string {
    if lines == [] then "" else lines[0] + "\n" + PrintLines(lines[1..])
  }

  /** Where the first line of a non-empty text ends: at its newline, or with the text. */
  function LineEnd(text: string): (n: nat)
    ensures n <= |text| && (n < |text| ==> text[n] == '\n')
    ensures forall i :: 0 <= i < n ==> text[i] != '\n'
  {
    if text == "" || text[0] == '\n' then 0 else 1 + LineEnd(text[1..])
  }

  /** What the scanner makes of a raw line: one carriage return before the newline goes. */
  function DropCR(line: string): string {
    if line != "" && line[|line| - 1] == '\r' then line[..|line| - 1] else line
  }

  function Keep(line: string): seq<string> {
    if DropCR(line) == "" then [] else [DropCR(line)]
  }

  function Prepend(lines: seq<string>, r: Result<seq<string>, string>): Result<seq<string>, string> {
    if r.Err? then r else Ok(lines + r.value)
  }

  /** The non-empty lines of a text, or failure at the first line too long to scan. */
  function ParseLines(text: string): Result<seq<string>, string>
    decreases |text|
  {
    if text == "" then Ok([])
    else
      var n := LineEnd(text);
      if n > LONGEST_LINE then Err("token too long")
      else
        Prepend(Keep(text[..n]), ParseLines(if n < |text| then text[n + 1..] else ""))
  }

  method FindLineEnd(text: string) returns (n: nat)
    ensures n == LineEnd(text)
  {
    n := 0;
    while n < |text| && text[n] != '\n'
      invariant n <= |text| && LineEnd(text) == n + LineEnd(text[n..])
    {
      assert text[n..][1..] == text[n + 1..];
      n := n + 1;
    }
  }

  function After(text: string): string
    requires text != ""
  {
    var n := LineEnd(text);
    if n < |text| then text[n + 1..] else ""
  }

  lemma NoMoreLines()
    ensures ParseLines("") == Ok([])
  {
  }

  lemma OneMoreLine(rest: string)
    requires rest != ""
    ensures var n := LineEnd(rest);
      ParseLines(rest) == if n > LONGEST_LINE then Err("token too long")
                          else Prepend(Keep(rest[..n]), ParseLines(After(rest)))
  {
  }

  lemma PrependInTurn(a: seq<string>, b: seq<string>, r: Result<seq<string>, string>)
    ensures Prepend(a, Prepend(b, r)) == Prepend(a + b, r)
    ensures Prepend([], r) == r
    ensures Prepend(a, Ok([])) == Ok(a)
  {
    if r.Ok? {
      assert a + (b + r.value) == a + b + r.value && [] + r.value == r.value;
    }
    assert a + [] == a;
  }

  /** readJSONLLines on an existing file. */
  method ReadLines(text: string) returns (r: Result<seq<string>, string>)
    ensures r == ParseLines(text)
  {
    NoMoreLines();
    hide LineEnd, ParseLines, Prepend, After;
    var lines: seq<string> := [];
    var rest := text;
    ghost var tail := ParseLines(text);
    PrependInTurn([], [], tail);
    while rest != ""
      invariant tail == ParseLines(rest)
      invariant ParseLines(text) == Prepend(lines, tail)
      decreases |rest|
    {
      var n := FindLineEnd(rest);
      OneMoreLine(rest);
      if n > LONGEST_LINE {
        FirstError(lines);
        return Err("token too long");
      }
      ghost var kept := Keep(rest[..n]);
      var line := DropCR(rest[..n]);
      ghost var before := lines;
      if line != "" {
        lines := lines + [line];
      }
      assert lines == before + kept;
      RestAfter(rest);
      rest := if n < |rest| then rest[n + 1..] else "";
      tail := ParseLines(rest);
      PrependInTurn(before, kept, tail);
    }
    PrependInTurn(lines, [], tail);
    return Ok(lines);
  }

  lemma FirstError(lines: seq<string>)
    ensures Prepend(lines, Err("token too long")) == Err("token too long")
  {
  }

  lemma RestAfter(rest: string)
    requires rest != ""
    ensures var n := LineEnd(rest);
      After(rest) == (if n < |rest| then rest[n + 1..] else "") && |After(rest)| < |rest|
  {
  }

  /** Lines as the scanner yields them. */
  predicate IsPlain(line: string) {
    line != "" && '\n' !in line
  }

  /** Lines that survive being written and read back: what json.Marshal emits is neither
      empty nor split, and ends in a brace. */
  predicate IsRecord(line: string) {
    IsPlain(line) && line[|line| - 1] != '\r'
  }

  ghost predicate AllPlain(lines: seq<string>) {
    forall l :: l in lines ==> IsPlain(l)
  }

  ghost predicate AllRecords(lines: seq<string>) {
    forall l :: l in lines ==> IsRecord(l)
  }

  ghost predicate AllFit(lines: seq<string>) {
    forall l :: l in lines ==> |l| <= 1_048_575
  }

  /** Lines written out and read again: each loses a carriage return at its end, and one that
      was nothing else is gone. */
  function Reread(lines: seq<string>): seq<string> {
    if lines == [] then [] else Keep(lines[0]) + Reread(lines[1..])
  }

  lemma EndOfFirst(line: string, rest: string)
    requires '\n' !in line
    ensures LineEnd(line + "\n" + rest) == |line|
  {
    var text := line + "\n" + rest;
    assert text[|line|] == '\n';
    assert forall i :: 0 <= i < |line| ==> text[i] == line[i];
  }

  lemma ParseFirst(line: string, rest: string)
    requires IsPlain(line)
    ensures var tail := ParseLines(rest);
      ParseLines(line + "\n" + rest)
      == if |line| > LONGEST_LINE then Err("token too long")
         else Prepend(Keep(line), tail)
  {
    var text := line + "\n" + rest;
    EndOfFirst(line, rest);
    OneMoreLine(text);
    RestAfter(text);
    hide ParseLines, LineEnd, After, Prepend;
    assert text[..|line|] == line && text[|line| + 1..] == rest;
  }

  lemma {:induction false} ReadingBack(lines: seq<string>)
    requires AllPlain(lines)
    ensures ParseLines(PrintLines(lines)) == if AllFit(lines) then Ok(Reread(lines)) else Err("token too long")
  {
    if lines != [] {
      var (line, more) := (lines[0], lines[1..]);
      assert lines == [line] + more;
      ReadingBack(more);
      ParseFirst(line, PrintLines(more));
      hide ParseLines, Keep;
    }
  }

  lemma {:induction false} RecordsReread(lines: seq<string>)
    requires AllRecords(lines)
    ensures Reread(lines) == lines
  {
    if lines != [] {
      assert lines == [lines[0]] + lines[1..] && lines[0] in lines;
      RecordsReread(lines[1..]);
      assert Keep(lines[0]) == [lines[0]];
    }
  }

  /** Reading back what was written returns the same lines exactly when each fits the
      scanner; one that does not makes the whole log unreadable. */
  lemma ReadingBackIff(lines: seq<string>)
    requires AllRecords(lines)
    ensures ParseLines(PrintLines(lines)) == if AllFit(lines) then Ok(lines) else Err("token too long")
  {
    ReadingBack(lines);
    RecordsReread(lines);
  }

  lemma KeptIsPlain(line: string)
    requires '\n' !in line
    ensures AllPlain(Keep(line))
  {
  }

  lemma {:induction false} RereadIsPlain(lines: seq<string>)
    requires AllPlain(lines)
    ensures AllPlain(Reread(lines))
  {
    if lines != [] {
      assert lines == [lines[0]] + lines[1..] && lines[0] in lines;
      KeptIsPlain(lines[0]);
      RereadIsPlain(lines[1..]);
    }
  }

  lemma {:induction false} ParsedIsPlain(text: string)
    ensures ParseLines(text).Ok? ==> AllPlain(ParseLines(text).value)
    decreases |text|
  {
    if text != "" {
      OneMoreLine(text);
      RestAfter(text);
      var n := LineEnd(text);
      KeptIsPlain(text[..n]);
      ParsedIsPlain(After(text));
      hide ParseLines, After, LineEnd, Keep;
    }
  }

  function LastLines(lines: seq<string>): seq<string> {
    if |lines| > CAP then lines[|lines| - CAP..] else lines
  }

  /** The last thousand. */
  lemma KeepsAThousand(lines: seq<string>)
    ensures |LastLines(lines)| == if |lines| < 1000 then |lines| else 1000
    ensures LastLines(lines) == lines[|lines| - |LastLines(lines)|..]
  {
  }

  /** Trimming after every append keeps what one trim at the end keeps. */
  lemma TrimAsYouGo(lines: seq<string>, line: string)
    ensures LastLines(LastLines(lines) + [line]) == LastLines(lines + [line])
  {
  }

  // ---------------------------------------------------------------- the recorder and its disk

  /** A file: absent, or its contents. */
  type File = Option<string>

  /** Where a record call can fail; Never is success. */
  datatype Fault = Never | AtMkdir | AtOpen | AtCreate | AtWrite(written: nat) | AtRename

  function LinesOf(f: File): Result<seq<string>, string> {
    if f.None? then Ok([]) else ParseLines(f.value)
  }

  class Recorder {
    var log: File
    var temp: File

    constructor (log: File)
      ensures this.log == log && temp == None
    {
      this.log, temp := log, None;
    }

    /** writeJSONLLines. A failed write removes the temporary file; a failed rename leaves it. */
    method WriteLines(lines: seq<string>, fault: Fault) returns (ok: bool)
      modifies this
      ensures ok <==> !fault.AtCreate? && !fault.AtWrite? && !fault.AtRename?
      ensures log == if ok then Some(PrintLines(lines)) else old(log)
      ensures temp == if fault.AtCreate? then old(temp) else if fault.AtRename? then Some(PrintLines(lines)) else None
    {
      if fault.AtCreate? {
        return false;
      }
      temp := Some("");
      for n := 0 to |lines|
        invariant log == old(log) && temp.Some?
        invariant temp.value + PrintLines(lines[n..]) == PrintLines(lines)
      {
        if fault.AtWrite? && fault.written == n {
          temp := None;
          return false;
        }
        assert lines[n..][1..] == lines[n + 1..];
        temp := Some(temp.value + lines[n] + "\n");
      }
      assert temp.value + PrintLines(lines[|lines|..]) == temp.value;
      if fault.AtWrite? {
        temp := None;
        return false;
      }
      if fault.AtRename? {
        return false;
      }
      log, temp := temp, None;
      return true;
    }

    /** One record call. */
    method Record(line: string, fault: Fault) returns (ok: bool)
      modifies this
      ensures ok <==> fault == Never && LinesOf(old(log)).Ok?
      ensures ok ==> log == Some(PrintLines(LastLines(LinesOf(old(log)).value + [line]))) && temp == None
      ensures !ok ==> log == old(log)
    {
      if fault.AtMkdir? || fault.AtOpen? {
        return false;
      }
      hide ParseLines, PrintLines, LastLines;
      var lines: seq<string> := [];
      if log.Some? {
        var r := ReadLines(log.value);
        if r.Err? {
          return false;
        }
        lines := r.value;
      }
      lines := LastLines(lines + [line]);
      ok := WriteLines(lines, fault);
    }
  }

  // ---------------------------------------------------------------- crashes at any point

  /** Where a record call stands, between one file operation and the next. */
  datatype Progress =
    | Idle
    | Opened(line: string)                         // past MkdirAll
    | Read(line: string, lines: seq<string>)       // the log read, the line appended, trimmed
    | Writing(line: string, lines: seq<string>)    // the temporary file created
    | Written(line: string, lines: seq<string>)    // flushed, synced and closed

  /** The two files, the call under way, and the history: the lines of the calls whose
      rename happened. */
  datatype State = State(log: File, temp: File, progress: Progress, recorded: seq<string>)

  datatype Step =
    | Call(line: string)
    | ReadLog
    | CreateTemp
    | WriteSome(bytes: string)    // the buffered writer flushes a piece
    | CloseTemp
    | Rename
    | Fail(tempGone: bool)        // the operation at hand returns an error
    | Crash                       // the process dies

  predicate Takes(s: State, step: Step, s': State) {
    match step
    case Call(line) => s.progress.Idle? && IsRecord(line) && s' == s.(progress := Opened(line))
    case ReadLog =>
      && s.progress.Opened? && LinesOf(s.log).Ok?
      && var line := s.progress.line;
         s' == s.(progress := Read(line, LastLines(LinesOf(s.log).value + [line])))
    case CreateTemp =>
      s.progress.Read? && s' == s.(temp := Some(""), progress := Writing(s.progress.line, s.progress.lines))
    case WriteSome(bytes) =>
      && s.progress.Writing? && s.temp.Some?
      && s.temp.value + bytes <= PrintLines(s.progress.lines)
      && s' == s.(temp := Some(s.temp.value + bytes))
    case CloseTemp =>
      && s.progress.Writing? && s.temp == Some(PrintLines(s.progress.lines))
      && s' == s.(progress := Written(s.progress.line, s.progress.lines))
    case Rename =>
      s.progress.Written? && s' == State(s.temp, None, Idle, s.recorded + [s.progress.line])
    case Fail(tempGone) =>
      && !s.progress.Idle?
      && s' == s.(progress := Idle, temp := if tempGone && s.progress.Writing? then None else s.temp)
    case Crash => s' == s.(progress := Idle)
  }

  ghost predicate IsRun(run: seq<State>, steps: seq<Step>) {
    && |run| == |steps| + 1
    && forall i :: 0 <= i < |steps| ==> Takes(run[i], steps[i], run[i + 1])
  }

  /** The lines of the log after the given records: each record call reads back what the one
      before it wrote, appends its line and trims. */
  function Rewritten(initial: seq<string>, recorded: seq<string>): seq<string>
    requires recorded != []
  {
    var (earlier, line) := (recorded[..|recorded| - 1], recorded[|recorded| - 1]);
    LastLines((if earlier == [] then initial else Reread(Rewritten(initial, earlier))) + [line])
  }

  lemma RewrittenOnce(initial: seq<string>, earlier: seq<string>, line: string)
    ensures Rewritten(initial, earlier + [line])
         == LastLines((if earlier == [] then initial else Reread(Rewritten(initial, earlier))) + [line])
  {
    assert (earlier + [line])[..|earlier|] == earlier;
  }

  /** What the log holds after the given records: untouched before the first of them. */
  ghost predicate Holds(log: File, initial: File, recorded: seq<string>) {
    if recorded == [] then log == initial
    else LinesOf(initial).Ok? && log == Some(PrintLines(Rewritten(LinesOf(initial).value, recorded)))
  }

  /** A call past reading is about to add exactly its own line. */
  ghost predicate InHand(line: string, lines: seq<string>, initial: File, recorded: seq<string>) {
    && IsRecord(line) && LinesOf(initial).Ok?
    && lines == Rewritten(LinesOf(initial).value, recorded + [line])
  }

  ghost predicate Faithful(s: State, initial: File) {
    && Holds(s.log, initial, s.recorded) && AllRecords(s.recorded)
    && match s.progress
       case Idle => true
       case Opened(line) => IsRecord(line)
       case Read(line, lines) => InHand(line, lines, initial, s.recorded)
       case Writing(line, lines) =>
         InHand(line, lines, initial, s.recorded) && s.temp.Some? && s.temp.value <= PrintLines(lines)
       case Written(line, lines) =>
         InHand(line, lines, initial, s.recorded) && s.temp == Some(PrintLines(lines))
  }

  lemma LastArePlain(lines: seq<string>)
    requires AllPlain(lines)
    ensures AllPlain(LastLines(lines))
  {
  }

  lemma {:induction false} RewrittenIsPlain(initial: seq<string>, recorded: seq<string>)
    requires AllPlain(initial) && AllRecords(recorded) && recorded != []
    ensures AllPlain(Rewritten(initial, recorded))
  {
    var (earlier, line) := (recorded[..|recorded| - 1], recorded[|recorded| - 1]);
    assert line in recorded;
    var base := if earlier == [] then initial else Reread(Rewritten(initial, earlier));
    if earlier != [] {
      RewrittenIsPlain(initial, earlier);
      RereadIsPlain(Rewritten(initial, earlier));
    }
    LastArePlain(base + [line]);
  }

  lemma LinesArePlain(f: File)
    ensures LinesOf(f).Ok? ==> AllPlain(LinesOf(f).value)
  {
    if f.Some? {
      ParsedIsPlain(f.value);
    }
  }

  /** What reading the log yields, when it can be read, is what the next record builds on. */
  lemma WhatIsRead(log: File, initial: File, recorded: seq<string>, line: string)
    requires Holds(log, initial, recorded) && AllRecords(recorded) && LinesOf(log).Ok?
    ensures LinesOf(initial).Ok?
    ensures LastLines(LinesOf(log).value + [line]) == Rewritten(LinesOf(initial).value, recorded + [line])
  {
    LinesArePlain(initial);
    RewrittenOnce(if LinesOf(initial).Ok? then LinesOf(initial).value else [], recorded, line);
    if recorded != [] {
      RewrittenIsPlain(LinesOf(initial).value, recorded);
      ReadingBack(Rewritten(LinesOf(initial).value, recorded));
      hide LastLines;
    }
  }

  lemma StepKeepsFaithful(s: State, step: Step, s': State, initial: File)
    requires Faithful(s, initial) && Takes(s, step, s')
    ensures Faithful(s', initial)
  {
    hide ParseLines, PrintLines, IsRecord, Rewritten;
    match step
    case ReadLog => WhatIsRead(s.log, initial, s.recorded, s.progress.line);
    case _ =>
  }

  /** After any run of record calls, some failing, with a crash possible between any two file
      operations, the log is exactly what its initial lines and the lines recorded make by
      rewriting once for each, and never a part of that. */
  lemma {:induction false} LogIsNeverPartial(run: seq<State>, steps: seq<Step>)
    requires IsRun(run, steps) && run[0].progress == Idle && run[0].recorded == []
    ensures Holds(run[|steps|].log, run[0].log, run[|steps|].recorded)
    ensures Faithful(run[|steps|], run[0].log)
  {
    if steps != [] {
      var n := |steps| - 1;
      LogIsNeverPartial(run[..n + 1], steps[..n]);
      StepKeepsFaithful(run[n], steps[n], run[n + 1], run[0].log);
    }
  }

  // ---------------------------------------------------------------- rewriting

  lemma {:induction false} RereadConcat(a: seq<string>, b: seq<string>)
    ensures Reread(a + b) == Reread(a) + Reread(b)
  {
    if a == [] {
      assert [] + b == b;
    } else {
      assert (a + b)[1..] == a[1..] + b;
      RereadConcat(a[1..], b);
      hide Keep;
    }
  }

  /** However the lines before it fare, a tail of records comes through rewriting whole. */
  lemma {:induction false} TailIsKept(before: seq<string>, tail: seq<string>, recorded: seq<string>)
    returns (rest: seq<string>)
    requires AllRecords(tail) && AllRecords(recorded) && recorded != []
    ensures Rewritten(before + tail, recorded) == LastLines(rest + (tail + recorded))
    ensures before == [] ==> rest == []
  {
    var (earlier, line) := (recorded[..|recorded| - 1], recorded[|recorded| - 1]);
    assert recorded == earlier + [line];
    assert AllRecords(earlier) && AllRecords(tail + earlier);
    RewrittenOnce(before + tail, earlier, line);
    hide Rewritten, LastLines, AllRecords, Reread;
    assert tail + earlier + [line] == tail + recorded;
    if earlier == [] {
      rest := before;
      assert before + tail + [line] == before + (tail + recorded);
    } else {
      var kept := TailIsKept(before, tail, earlier);
      rest := CutAndReread(kept, tail + earlier, line);
    }
  }

  lemma CutAndReread(before: seq<string>, tail: seq<string>, line: string) returns (rest: seq<string>)
    requires AllRecords(tail)
    ensures LastLines(Reread(LastLines(before + tail)) + [line]) == LastLines(rest + (tail + [line]))
    ensures before == [] ==> rest == []
  {
    hide Keep, Reread, IsRecord;
    var n := |before| + |tail| - CAP;
    if n <= |before| {
      var left := if n > 0 then before[n..] else before;
      assert LastLines(before + tail) == left + tail;
      RereadConcat(left, tail);
      RecordsReread(tail);
      rest := Reread(left);
      assert left == [] ==> rest == [] by {
        NothingToReread();
      }
      hide LastLines;
      assert rest + tail + [line] == rest + (tail + [line]);
    } else {
      rest := [];
      assert LastLines(before + tail) == LastLines(tail);
      RecordsReread(LastLines(tail));
      TrimAsYouGo(tail, line);
      hide LastLines;
      assert [] + (tail + [line]) == tail + [line];
    }
  }

  lemma NothingToReread()
    ensures Reread([]) == []
  {
  }

  /** The log is the last 1000 of its initial lines and those recorded whenever all of these
      are lines as record calls write them. */
  lemma LogIsTheLastLines(initial: seq<string>, recorded: seq<string>)
    requires AllRecords(recorded) && recorded != [] && AllRecords(LastLines(initial + recorded))
    ensures Rewritten(initial, recorded) == LastLines(initial + recorded)
  {
    hide Rewritten, IsRecord, LastLines, AllRecords;
    var n := |initial| + |recorded| - CAP;
    var cut := if n <= 0 then 0 else if n <= |initial| then n else |initial|;
    var (before, tail) := (initial[..cut], initial[cut..]);
    assert initial == before + tail && before + tail + recorded == initial + recorded;
    RetainedTail(before, tail, recorded);
    var rest := TailIsKept(before, tail, recorded);
    OnlyTheTail(rest, tail, recorded);
    OnlyTheTail(before, tail, recorded);
    assert before + tail + recorded == before + (tail + recorded);
  }

  lemma RetainedTail(before: seq<string>, tail: seq<string>, recorded: seq<string>)
    requires tail == [] || |tail| + |recorded| == CAP || (before == [] && |tail| + |recorded| <= CAP)
    requires AllRecords(LastLines(before + tail + recorded))
    ensures AllRecords(tail)
  {
    hide IsRecord;
    var all := LastLines(before + tail + recorded);
    forall l | l in tail ensures IsRecord(l) {
      var i :| 0 <= i < |tail| && tail[i] == l;
      assert all[i] == l;
    }
  }

  lemma OnlyTheTail(rest: seq<string>, tail: seq<string>, recorded: seq<string>)
    requires rest == [] || |tail| + |recorded| >= CAP
    ensures LastLines(rest + (tail + recorded)) == LastLines(tail + recorded)
  {
    if rest == [] {
      assert [] + (tail + recorded) == tail + recorded;
    }
  }

  function Bytes(lines: seq<string>): nat {
    if lines == [] then 0 else |lines[0]| + Bytes(lines[1..])
  }

  lemma {:induction false} RereadShrinks(lines: seq<string>)
    requires AllPlain(lines)
    ensures Bytes(Reread(lines)) <= Bytes(lines) && |Reread(lines)| <= |lines|
    ensures Bytes(Reread(lines)) == Bytes(lines) <==> AllRecords(lines)
  {
    if lines != [] {
      var (line, more) := (lines[0], lines[1..]);
      assert lines == [line] + more;
      RereadShrinks(more);
      if DropCR(line) == "" {
        assert Reread(lines) == Reread(more);
      } else {
        assert Reread(lines)[1..] == Reread(more);
      }
      assert AllRecords(lines) <==> IsRecord(line) && AllRecords(more);
    }
  }

  function RereadTimes(lines: seq<string>, n: nat): seq<string> {
    if n == 0 then lines else Reread(RereadTimes(lines, n - 1))
  }

  lemma {:induction false} TimesShrink(lines: seq<string>, n: nat)
    requires AllPlain(lines)
    ensures AllPlain(RereadTimes(lines, n)) && |RereadTimes(lines, n)| <= |lines|
    ensures Bytes(RereadTimes(lines, n)) <= Bytes(lines)
    ensures n > 0 && Bytes(RereadTimes(lines, n)) == Bytes(lines) ==> AllRecords(lines)
  {
    if n > 0 {
      TimesShrink(lines, n - 1);
      RereadIsPlain(RereadTimes(lines, n - 1));
      RereadShrinks(RereadTimes(lines, n - 1));
      if n == 1 {
        RereadShrinks(lines);
      }
      hide Reread, Bytes;
    }
  }

  lemma {:induction false} UntrimmedLog(initial: seq<string>, recorded: seq<string>)
    requires AllPlain(initial) && AllRecords(recorded) && recorded != [] && |initial| + |recorded| <= CAP
    ensures Rewritten(initial, recorded) == RereadTimes(initial, |recorded| - 1) + recorded
  {
    var (earlier, line) := (recorded[..|recorded| - 1], recorded[|recorded| - 1]);
    assert recorded == earlier + [line] && line in recorded;
    RewrittenOnce(initial, earlier, line);
    hide Rewritten, Reread, IsRecord;
    if earlier == [] {
      assert initial + [line] == initial + recorded;
    } else {
      var times := RereadTimes(initial, |earlier| - 1);
      UntrimmedLog(initial, earlier);
      RereadConcat(times, earlier);
      RecordsReread(earlier);
      TimesShrink(initial, |recorded| - 1);
      assert Reread(times) + earlier + [line] == Reread(times) + recorded;
    }
  }

  /** Until it is trimmed, the log is its initial lines and those recorded exactly when at most
      one has been recorded or no initial line ends in a carriage return. */
  lemma LogIsExactIff(initial: seq<string>, recorded: seq<string>)
    requires AllPlain(initial) && AllRecords(recorded) && recorded != [] && |initial| + |recorded| <= CAP
    ensures Rewritten(initial, recorded) == initial + recorded <==> |recorded| == 1 || AllRecords(initial)
  {
    UntrimmedLog(initial, recorded);
    var times := RereadTimes(initial, |recorded| - 1);
    TimesShrink(initial, |recorded| - 1);
    if AllRecords(initial) {
      LogIsTheLastLines(initial, recorded);
    }
    hide Rewritten, RereadTimes;
    if times + recorded == initial + recorded {
      assert (times + recorded)[..|times|] == (initial + recorded)[..|initial|];
    }
  }

  /** Say the log begins with "a" and two carriage returns: the scanner takes one, the second
      record call's rewriting the other. */
  lemma CarriageReturnIsLost(first: string, second: string)
    requires IsRecord(first) && IsRecord(second)
    ensures LinesOf(Some("a\r\r\n")) == Ok(["a\r"])
    ensures Rewritten(["a\r"], [first]) == ["a\r", first]
    ensures Rewritten(["a\r"], [first, second]) == ["a", first, second]
  {
    ReadsOnce();
    UntrimmedLog(["a\r"], [first]);
    UntrimmedLog(["a\r"], [first, second]);
    RereadsOnce();
    hide Rewritten, RereadTimes, ParseLines;
    assert ["a\r"] + [first] == ["a\r", first] && ["a"] + [first, second] == ["a", first, second];
  }

  lemma ReadsOnce()
    ensures LinesOf(Some("a\r\r\n")) == Ok(["a\r"])
  {
    var line := "a\r\r";
    assert "a\r\r\n" == line + "\n" + "";
    ParseFirst(line, "");
    NoMoreLines();
    assert DropCR(line) == "a\r" && Keep(line) == ["a\r"];
    PrependInTurn(["a\r"], [], Ok([]));
    hide ParseLines;
  }

  lemma RereadsOnce()
    ensures RereadTimes(["a\r"], 0) == ["a\r"] && RereadTimes(["a\r"], 1) == ["a"]
  {
    assert DropCR("a\r") == "a";
    assert ["a\r"][1..] == [] && Reread([]) == [];
    assert Reread(["a\r"]) == Keep("a\r") + Reread([]) == ["a"];
  }

  /** From any state a run can reach, the log can be read exactly when no line it holds is
      longer than the scanner takes; if one is, no later call ever records again. */
  lemma ReadableIff(s: State, initial: File)
    requires Faithful(s, initial) && s.recorded != []
    ensures LinesOf(s.log).Ok? <==> AllFit(Rewritten(LinesOf(initial).value, s.recorded))
  {
    LinesArePlain(initial);
    RewrittenIsPlain(LinesOf(initial).value, s.recorded);
    ReadingBack(Rewritten(LinesOf(initial).value, s.recorded));
  }

  lemma {:induction false} UnreadableForGood(run: seq<State>, steps: seq<Step>)
    requires IsRun(run, steps) && run[0].progress == Idle && LinesOf(run[0].log).Err?
    ensures run[|steps|].log == run[0].log && run[|steps|].recorded == run[0].recorded
    ensures run[|steps|].progress.Idle? || run[|steps|].progress.Opened?
  {
    if steps != [] {
      var n := |steps| - 1;
      UnreadableForGood(run[..n + 1], steps[..n]);
      assert Takes(run[n], steps[n], run[n + 1]);
    }
  }

  /** A call under way in s, which it entered in `start`: the log is untouched until the rename. */
  ghost predicate UnderWay(start: State, s: State, line: string) {
    && s.log == start.log && s.recorded == start.recorded
    && match s.progress
       case Idle => false
       case Opened(l) => l == line && s.temp == start.temp
       case Read(l, lines) => l == line && LinesOf(start.log).Ok? && lines == LastLines(LinesOf(start.log).value + [line])
       case Writing(l, lines) =>
         l == line && LinesOf(start.log).Ok? && lines == LastLines(LinesOf(start.log).value + [line])
       case Written(l, lines) =>
         && l == line && LinesOf(start.log).Ok? && lines == LastLines(LinesOf(start.log).value + [line])
         && s.temp == Some(PrintLines(lines))
  }

  ghost predicate IsFinished(start: State, s: State, line: string) {
    && LinesOf(start.log).Ok?
    && s == State(Some(PrintLines(LastLines(LinesOf(start.log).value + [line]))), None, Idle, start.recorded + [line])
  }

  /** A single call that nothing interrupts, however its writing is split up, does to the files
      what Recorder.Record does; until it is finished the log is as it was. */
  lemma {:induction false} UninterruptedCall(run: seq<State>, steps: seq<Step>, line: string)
    requires IsRun(run, steps) && steps != [] && run[0].progress == Idle && steps[0] == Call(line)
    requires forall i :: 1 <= i < |steps| ==> !steps[i].Call? && !steps[i].Fail? && !steps[i].Crash?
    ensures if run[|steps|].progress == Idle then IsFinished(run[0], run[|steps|], line)
            else UnderWay(run[0], run[|steps|], line)
  {
    hide PrintLines, ParseLines, LastLines, IsRecord;
    var n := |steps| - 1;
    assert Takes(run[n], steps[n], run[n + 1]);
    if n > 0 {
      UninterruptedCall(run[..n + 1], steps[..n], line);
    }
  }

  /** And there is such a call from every state with a readable log. */
  lemma CallCanFinish(s: State, line: string)
    requires s.progress == Idle && IsRecord(line) && LinesOf(s.log).Ok?
    ensures exists run, steps :: IsRun(run, steps) && run[0] == s && IsFinished(s, run[|steps|], line)
  {
    var lines := LastLines(LinesOf(s.log).value + [line]);
    var text := PrintLines(lines);
    hide PrintLines, ParseLines, LastLines, IsRecord;
    var s1 := s.(progress := Opened(line));
    var s2 := s.(progress := Read(line, lines));
    var s3 := s.(temp := Some(""), progress := Writing(line, lines));
    var s4 := s3.(temp := Some(text));
    var s5 := s4.(progress := Written(line, lines));
    var s6 := State(Some(text), None, Idle, s.recorded + [line]);
    var run := [s, s1, s2, s3, s4, s5, s6];
    var steps := [Call(line), ReadLog, CreateTemp, WriteSome(text), CloseTemp, Rename];
    assert Takes(s, steps[0], s1) && Takes(s1, steps[1], s2) && Takes(s2, steps[2], s3);
    assert "" + text == text && Takes(s3, steps[3], s4) && Takes(s4, steps[4], s5) && Takes(s5, steps[5], s6);
    assert IsRun(run, steps) && run[|steps|] == s6;
  }
}

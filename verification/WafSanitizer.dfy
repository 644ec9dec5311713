/** jevkit.py: rewriting what a web firewall rejects, and the request loop that does it. */
module WafSanitizer {
  import opened Wrappers
  import opened Json

  datatype Rewrite = Rewrite(pattern: string, replacement: string)

  const REWRITES := [Rewrite(SILENT, FETCH), Rewrite(SHOW, FETCH), Rewrite(BEARER, AUTH_TOKEN)]

  const SILENT := "curl -s"
  const SHOW := "curl -S"
  const BEARER := "Authorization: Bearer"
  const FETCH := "fetch"
  const AUTH_TOKEN := "Auth-token"

  /** Python's s.replace(r.pattern, r.replacement): leftmost matches, none overlapping. */
  function ReplaceAll(s: string, r: Rewrite): string
    requires r.pattern != ""
  {
    if s == "" then ""
    else if r.pattern <= s then r.replacement + ReplaceAll(s[|r.pattern|..], r)
    else [s[0]] + ReplaceAll(s[1..], r)
  }

  function SanitizeText(s: string): string {
    ReplaceAll(ReplaceAll(ReplaceAll(s, REWRITES[0]), REWRITES[1]), REWRITES[2])
  }

  method SanitizeString(value: string) returns (out: string)
    ensures out == SanitizeText(value)
  {
    out := value;
    for i := 0 to |REWRITES|
      invariant out == if i == 0 then value
                       else if i == 1 then ReplaceAll(value, REWRITES[0])
                       else if i == 2 then ReplaceAll(ReplaceAll(value, REWRITES[0]), REWRITES[1])
                       else SanitizeText(value)
    {
      out := ReplaceAll(out, REWRITES[i]);
    }
  }

  function Sanitize(v: Json): Json
    decreases v, 1
  {
    match v
    case Str(text) => Str(SanitizeText(text))
    case Obj(keys, values) => Obj(keys, SanitizeAll(values))
    case Arr(items) => Arr(SanitizeAll(items))
    case Other(_) => v
  }

  function SanitizeAll(items: seq<Json>): (r: seq<Json>)
    ensures |r| == |items|
    decreases items, 0
  {
    if items == [] then [] else [Sanitize(items[0])] + SanitizeAll(items[1..])
  }

  // ---------------------------------------------------------------- no pattern comes back

  /** p occurs nowhere in s. */
  ghost predicate Free(s: string, p: string) {
    forall i :: 0 <= i <= |s| ==> !(p <= s[i..])
  }

  predicate Clash(front: string, p: string, i: nat, j: nat) {
    j < |p| && i + j < |front| && front[i + j] != p[j]
  }

  /** A replacement no occurrence of p can overlap: none can run into it from the left, for
      its first character could only begin p, and none can begin inside it. */
  ghost predicate Inert(front: string, p: string) {
    && front != "" && p != "" && front[0] !in p[1..]
    && forall i: nat :: i < |front| ==> CannotBegin(front, p, i)
  }

  ghost predicate CannotBegin(front: string, p: string, i: nat) {
    exists j: nat :: Clash(front, p, i, j)
  }

  /** A prefix that avoids the replacement's first character was there before. */
  lemma {:induction false} PrefixWasThere(s: string, r: Rewrite, w: string)
    requires r.pattern != "" && r.replacement != "" && r.replacement[0] !in w
    requires w <= ReplaceAll(s, r)
    ensures w <= s
    decreases s
  {
    if w != "" {
      var t := ReplaceAll(s, r);
      assert w[0] == t[0];
      if r.pattern <= s {
        assert false;
      } else {
        assert w[1..] <= t[1..] == ReplaceAll(s[1..], r);
        PrefixWasThere(s[1..], r, w[1..]);
      }
    }
  }

  lemma FreeFront(front: string, rest: string, p: string)
    requires Inert(front, p) && Free(rest, p)
    ensures Free(front + rest, p)
  {
    forall i: nat | i <= |front + rest| ensures !(p <= (front + rest)[i..]) {
      if i < |front| {
        assert CannotBegin(front, p, i);
        var j: nat :| Clash(front, p, i, j);
        assert (front + rest)[i..][j] == front[i + j];
      } else {
        assert (front + rest)[i..] == rest[i - |front|..];
      }
    }
  }

  lemma FreeCons(s: string, p: string)
    requires s != ""
    ensures Free(s, p) <==> !(p <= s) && Free(s[1..], p)
  {
    assert s[0..] == s;
    assert forall i :: 0 <= i <= |s[1..]| ==> s[1..][i..] == s[i + 1..];
    if !(p <= s) && Free(s[1..], p) {
      forall i | 0 <= i <= |s| ensures !(p <= s[i..]) {
        if i > 0 {
          assert s[i..] == s[1..][i - 1..];
        }
      }
    }
  }

  lemma FreeTail(s: string, p: string, n: nat)
    requires Free(s, p) && n <= |s|
    ensures Free(s[n..], p)
  {
    assert forall i :: 0 <= i <= |s[n..]| ==> s[n..][i..] == s[n + i..];
  }

  lemma MatchWasThere(s: string, r: Rewrite, p: string)
    requires s != "" && r.pattern != "" && !(r.pattern <= s) && Inert(r.replacement, p)
    requires p <= ReplaceAll(s, r)
    ensures p <= s
  {
    var t := ReplaceAll(s, r);
    assert p[1..] <= t[1..] == ReplaceAll(s[1..], r);
    PrefixWasThere(s[1..], r, p[1..]);
    assert p == [s[0]] + p[1..] && s == [s[0]] + s[1..];
  }

  /** Replacing r's pattern leaves free of p what was free of p, and frees of its own. */
  lemma {:induction false} ReplacingFrees(s: string, r: Rewrite, p: string)
    requires r.pattern != "" && Inert(r.replacement, p)
    requires p == r.pattern || Free(s, p)
    ensures Free(ReplaceAll(s, r), p)
    decreases s
  {
    if s != "" {
      if r.pattern <= s {
        if p != r.pattern {
          FreeTail(s, p, |r.pattern|);
        }
        ReplacingFrees(s[|r.pattern|..], r, p);
        FreeFront(r.replacement, ReplaceAll(s[|r.pattern|..], r), p);
      } else {
        if p != r.pattern {
          FreeTail(s, p, 1);
          assert s[0..] == s;
        }
        ReplacingFrees(s[1..], r, p);
        var t := ReplaceAll(s, r);
        assert t == [s[0]] + ReplaceAll(s[1..], r) && t[1..] == ReplaceAll(s[1..], r);
        if p <= t {
          MatchWasThere(s, r, p);
        }
        FreeCons(t, p);
      }
    }
  }

  lemma {:induction false} FreeIsUntouched(s: string, r: Rewrite)
    requires r.pattern != "" && Free(s, r.pattern)
    ensures ReplaceAll(s, r) == s
    decreases s
  {
    if s != "" {
      FreeCons(s, r.pattern);
      FreeIsUntouched(s[1..], r);
    }
  }

  /** Python replaces the leftmost match and goes on behind it; with FreeIsUntouched that is
      the whole of ReplaceAll. */
  lemma {:induction false} ReplacesLeftmost(before: string, r: Rewrite, rest: string)
    requires r.pattern != ""
    requires forall i :: 0 <= i < |before| ==> !(r.pattern <= (before + r.pattern + rest)[i..])
    ensures ReplaceAll(before + r.pattern + rest, r) == before + r.replacement + ReplaceAll(rest, r)
  {
    var s := before + r.pattern + rest;
    if before == "" {
      assert s[|r.pattern|..] == rest;
      assert "" + r.replacement == r.replacement;
    } else {
      var tail := before[1..] + r.pattern + rest;
      assert s == [before[0]] + tail && s[1..] == tail && s[0..] == s;
      forall i | 0 <= i < |before[1..]| ensures !(r.pattern <= tail[i..]) {
        assert tail[i..] == s[i + 1..];
      }
      ReplacesLeftmost(before[1..], r, rest);
      var out := before[1..] + r.replacement + ReplaceAll(rest, r);
      assert [before[0]] + out == before + r.replacement + ReplaceAll(rest, r);
    }
  }

  predicate Absent(c: char, s: string) {
    forall k :: 0 <= k < |s| ==> s[k] != c
  }

  /** Only "fetch"'s 'c' and the leading 'A' of "Auth-token" are also the start of a pattern,
      and what follows them gives them away. */
  lemma RewritesAreInert()
    ensures forall p :: p in {SILENT, SHOW, BEARER} ==> Inert(FETCH, p) && Inert(AUTH_TOKEN, p)
  {
    forall p | p in {SILENT, SHOW, BEARER} ensures Inert(FETCH, p) && Inert(AUTH_TOKEN, p) {
      FetchIsInert(p);
      AuthTokenIsInert(p);
    }
  }

  lemma NoStrayLetters(p: string)
    requires p in {SILENT, SHOW, BEARER}
    ensures 'f' !in p[1..] && 'A' !in p[1..]
  {
    assert Absent('f', SILENT) && Absent('f', SHOW) && Absent('f', BEARER);
    assert Absent('A', SILENT) && Absent('A', SHOW) && Absent('A', BEARER[1..]);
  }

  lemma FetchIsInert(p: string)
    requires p in {SILENT, SHOW, BEARER}
    ensures Inert(FETCH, p)
  {
    NoStrayLetters(p);
    assert p[0] == 'A' || (p[0] == 'c' && p[1] == 'u');
    forall i: nat | i < |FETCH| ensures CannotBegin(FETCH, p, i) {
      assert Clash(FETCH, p, i, if i == 3 && p[0] == 'c' then 1 else 0);
    }
  }

  lemma AuthTokenIsInert(p: string)
    requires p in {SILENT, SHOW, BEARER}
    ensures Inert(AUTH_TOKEN, p)
  {
    NoStrayLetters(p);
    assert (p[0] == 'A' && p[4] == 'o') || p[0] == 'c';
    forall i: nat | i < |AUTH_TOKEN| ensures CannotBegin(AUTH_TOKEN, p, i) {
      assert Clash(AUTH_TOKEN, p, i, if i == 0 && p[0] == 'A' then 4 else 0);
    }
  }

  /** No pattern is left anywhere in a sanitised string, the patterns that the replacements
      could have made included. */
  lemma SanitizedTextIsFree(s: string, j: nat)
    requires j < 3
    ensures Free(SanitizeText(s), REWRITES[j].pattern)
  {
    var one := ReplaceAll(s, REWRITES[0]);
    var two := ReplaceAll(one, REWRITES[1]);
    RewritesAreInert();
    ReplacingFrees(s, REWRITES[0], REWRITES[0].pattern);
    ReplacingFrees(one, REWRITES[1], REWRITES[0].pattern);
    ReplacingFrees(two, REWRITES[2], REWRITES[0].pattern);
    ReplacingFrees(one, REWRITES[1], REWRITES[1].pattern);
    ReplacingFrees(two, REWRITES[2], REWRITES[1].pattern);
    ReplacingFrees(two, REWRITES[2], REWRITES[2].pattern);
  }

  lemma RewriteOnce(rest: string, r: Rewrite)
    requires r.pattern != ""
    ensures ReplaceAll(r.pattern + rest, r) == r.replacement + ReplaceAll(rest, r)
  {
    assert "" + r.pattern + rest == r.pattern + rest && "" + r.replacement == r.replacement;
    ReplacesLeftmost("", r, rest);
  }

  /** What each rewrite makes of its pattern. */
  lemma WhatIsSentInstead(rest: string)
    ensures ReplaceAll("curl -s" + rest, REWRITES[0]) == "fetch" + ReplaceAll(rest, REWRITES[0])
    ensures ReplaceAll("curl -S" + rest, REWRITES[1]) == "fetch" + ReplaceAll(rest, REWRITES[1])
    ensures ReplaceAll("Authorization: Bearer" + rest, REWRITES[2]) == "Auth-token" + ReplaceAll(rest, REWRITES[2])
  {
    hide ReplaceAll;
    RewriteOnce(rest, REWRITES[0]);
    RewriteOnce(rest, REWRITES[1]);
    RewriteOnce(rest, REWRITES[2]);
  }

  lemma SanitizedTextStays(s: string)
    ensures SanitizeText(SanitizeText(s)) == SanitizeText(s)
  {
    var t := SanitizeText(s);
    SanitizedTextIsFree(s, 0);
    SanitizedTextIsFree(s, 1);
    SanitizedTextIsFree(s, 2);
    FreeIsUntouched(t, REWRITES[0]);
    FreeIsUntouched(t, REWRITES[1]);
    FreeIsUntouched(t, REWRITES[2]);
  }

  /** Sanitising a second time changes nothing, however deep the value. */
  lemma {:induction false} SanitizeIsIdempotent(v: Json)
    ensures Sanitize(Sanitize(v)) == Sanitize(v)
    decreases v, 1
  {
    match v
    case Str(text) => SanitizedTextStays(text);
    case Obj(_, values) => SanitizeAllIsIdempotent(values);
    case Arr(items) => SanitizeAllIsIdempotent(items);
    case Other(_) =>
  }

  lemma {:induction false} SanitizeAllIsIdempotent(items: seq<Json>)
    ensures SanitizeAll(SanitizeAll(items)) == SanitizeAll(items)
    decreases items, 0
  {
    if items != [] {
      SanitizeIsIdempotent(items[0]);
      SanitizeAllIsIdempotent(items[1..]);
      assert SanitizeAll(items)[1..] == SanitizeAll(items[1..]);
    }
  }

  // ---------------------------------------------------------------- every place of a value

  lemma {:induction false} SanitizedMembers(items: seq<Json>, i: nat)
    requires i < |items|
    ensures SanitizeAll(items)[i] == Sanitize(items[i])
  {
    if i > 0 {
      SanitizedMembers(items[1..], i - 1);
    }
  }

  ghost predicate IsSanitized(was: Option<Json>, node: Option<Json>) {
    if was.None? then node.None?
    else
      && node.Some? && SameKind(was.value, node.value)
      && (was.value.Str? ==> node.value.text == SanitizeText(was.value.text))
  }

  /** At every place there is what there was, keys and all, with a string's text sanitised. */
  lemma {:induction false} EveryPlaceIsSanitized(v: Json, path: seq<nat>)
    ensures IsSanitized(NodeAt(v, path), NodeAt(Sanitize(v), path))
    decreases path
  {
    var (members, after) := (Members(v), Members(Sanitize(v)));
    assert |after| == |members|;
    if path != [] && path[0] < |members| {
      SanitizedMembers(members, path[0]);
      EveryPlaceIsSanitized(members[path[0]], path[1..]);
    }
  }

  ghost predicate HasNoPattern(text: string) {
    Free(text, "curl -s") && Free(text, "curl -S") && Free(text, "Authorization: Bearer")
  }

  /** No string at any depth holds one of the patterns. */
  ghost predicate IsHarmless(v: Json) {
    forall path :: NodeAt(v, path).Some? && NodeAt(v, path).value.Str? ==> HasNoPattern(NodeAt(v, path).value.text)
  }

  lemma SanitizedIsHarmless(v: Json)
    ensures IsHarmless(Sanitize(v))
  {
    forall path | NodeAt(Sanitize(v), path).Some? && NodeAt(Sanitize(v), path).value.Str?
      ensures HasNoPattern(NodeAt(Sanitize(v), path).value.text)
    {
      EveryPlaceIsSanitized(v, path);
      var text := NodeAt(v, path).value.text;
      SanitizedTextIsFree(text, 0);
      SanitizedTextIsFree(text, 1);
      SanitizedTextIsFree(text, 2);
    }
  }

  // ---------------------------------------------------------------- the request loop

  datatype Reply = Answered(payload: string) | HttpError(code: int) | TransportError

  const FORBIDDEN := 403
  const TOO_MANY := 429
  const OVERLOADED := 529

  predicate Retryable(r: Reply) {
    match r
    case Answered(_) => false
    case HttpError(code) => code == 403 || code == 429 || code == 529
    case TransportError => true
  }

  /** What request n carries: the sanitised state once a request before it was forbidden. */
  ghost function Carried(state: Json, replies: nat -> Reply, n: nat): Json {
    if exists j :: 0 <= j < n && replies(j) == HttpError(FORBIDDEN) then Sanitize(state) else state
  }

  /** One of the first n replies was a 403 with a retry left. */
  ghost predicate ForbiddenBefore(replies: nat -> Reply, n: nat, retries: int) {
    exists j :: 0 <= j < n && j < retries && replies(j) == HttpError(403)
  }

  /** ask's loop. `replies` is what the service would answer to the requests, from 0. */
  method Ask(original: Json, retries: int, replies: nat -> Reply)
    returns (r: Result<string, Reply>, sent: seq<Json>, rewrites: nat)
    ensures |sent| <= if retries < 0 then 0 else retries + 1
    ensures rewrites == if Sanitize(original) != original && ForbiddenBefore(replies, |sent|, retries) then 1 else 0
    ensures forall n :: 0 <= n < |sent| ==> sent[n] == Carried(original, replies, n)
    ensures forall j, n :: 0 <= j < n < |sent| && replies(j) == HttpError(403) ==> IsHarmless(sent[n])
    ensures forall n :: 0 <= n < |sent| - 1 ==> Retryable(replies(n))
    ensures sent == [] <==> retries < 0
    ensures sent != [] ==> r == match replies(|sent| - 1)
                                case Answered(payload) => Ok(payload)
                                case failure => Err(failure)
    ensures sent != [] && Retryable(replies(|sent| - 1)) ==> |sent| == retries + 1
  {
    SanitizedIsHarmless(original);
    hide IsHarmless;
    var state := original;
    var attempt := 1;
    sent, rewrites := [], 0;
    while attempt < retries + 2
      invariant |sent| == attempt - 1 && (attempt == 1 || attempt <= retries + 1)
      invariant forall n :: 0 <= n < |sent| ==> sent[n] == Carried(original, replies, n)
      invariant forall n :: 0 <= n < |sent| ==> Retryable(replies(n))
      invariant state == Carried(original, replies, |sent|)
      invariant rewrites == if Sanitize(original) != original && ForbiddenBefore(replies, |sent|, retries) then 1 else 0
    {
      var reply := replies(|sent|);
      sent := sent + [state];
      match reply {
        case Answered(payload) =>
          return Ok(payload), sent, rewrites;
        case HttpError(code) =>
          if code == FORBIDDEN && attempt <= retries {
            var sanitized := Sanitize(state);
            SanitizeIsIdempotent(original);
            assert sanitized == Sanitize(original);
            assert replies(attempt - 1) == HttpError(FORBIDDEN);
            if sanitized != state {
              state := sanitized;
              rewrites := rewrites + 1;
            }
          } else if (code == TOO_MANY || code == OVERLOADED) && attempt <= retries {
          } else {
            return Err(reply), sent, rewrites;
          }
        case TransportError =>
          if attempt > retries {
            return Err(reply), sent, rewrites;
          }
      }
      attempt := attempt + 1;
    }
    return Err(TransportError), sent, rewrites;
  }
}

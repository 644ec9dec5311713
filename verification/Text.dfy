/** Strings ordered as Go, Python and SQLite compare them: character by character,
    a proper prefix before its extensions. */
module Text {
  predicate LexLess(a: string, b: string) {
    if b == "" then false
    else if a == "" then true
    else if a[0] != b[0] then a[0] < b[0]
    else LexLess(a[1..], b[1..])
  }

  predicate LexLeq(a: string, b: string) {
    !LexLess(b, a)
  }

  lemma {:induction false} LexTotal(a: string, b: string)
    ensures LexLess(a, b) || a == b || LexLess(b, a)
    ensures !(LexLess(a, b) && LexLess(b, a))
    ensures !LexLess(a, a)
  {
    if a != "" && b != "" && a[0] == b[0] {
      LexTotal(a[1..], b[1..]);
      assert a[1..] == b[1..] ==> [a[0]] + a[1..] == [b[0]] + b[1..];
      assert a == [a[0]] + a[1..] && b == [b[0]] + b[1..];
    }
    if a != "" {
      LexIrreflexive(a);
    }
  }

  lemma {:induction false} LexIrreflexive(a: string)
    ensures !LexLess(a, a)
  {
    if a != "" {
      LexIrreflexive(a[1..]);
    }
  }

  lemma {:induction false} LexTransitive(a: string, b: string, c: string)
    requires LexLess(a, b) && LexLess(b, c)
    ensures LexLess(a, c)
  {
    if a != "" && b != "" && c != "" && a[0] == b[0] == c[0] {
      LexTransitive(a[1..], b[1..], c[1..]);
    }
  }

  lemma LexLeqTransitive(a: string, b: string, c: string)
    requires LexLeq(a, b) && LexLeq(b, c)
    ensures LexLeq(a, c)
  {
    LexTotal(a, b);
    LexTotal(b, c);
    if LexLess(a, b) && LexLess(b, c) {
      LexTransitive(a, b, c);
      LexTotal(a, c);
    }
  }

  /** Fixed-width fields compare field by field. */
  lemma {:induction false} LexFields(a: string, b: string, c: string, d: string)
    requires |a| == |c|
    ensures LexLess(a + b, c + d) <==> LexLess(a, c) || (a == c && LexLess(b, d))
  {
    if a == "" {
      assert a + b == b && c + d == d;
    } else {
      assert (a + b)[1..] == a[1..] + b && (c + d)[1..] == c[1..] + d;
      LexFields(a[1..], b, c[1..], d);
      assert a == [a[0]] + a[1..] && c == [c[0]] + c[1..];
    }
  }

  predicate HasPrefix(s: string, p: string) {
    |p| <= |s| && s[..|p|] == p
  }

  predicate HasSuffix(s: string, p: string) {
    |p| <= |s| && s[|s| - |p|..] == p
  }

  /** Unicode white space. */
  predicate IsSpace(c: char) {
    c in {' ', '\t', '\n', '\r', '\U{000B}', '\U{000C}', '\U{0085}', '\U{00A0}', '\U{1680}',
          '\U{2028}', '\U{2029}', '\U{202F}', '\U{205F}', '\U{3000}'}
    || '\U{2000}' <= c <= '\U{200A}'
  }

  /** By code point. */
  lemma SpaceCodes(c: char)
    ensures IsSpace(c) <==>
      || 9 <= c as int <= 13 || 8192 <= c as int <= 8202
      || c as int in {32, 133, 160, 5760, 8232, 8233, 8239, 8287, 12288}
  {
  }

  function TrimSpace(s: string): string {
    if s == "" then ""
    else if IsSpace(s[0]) then TrimSpace(s[1..])
    else if IsSpace(s[|s| - 1]) then TrimSpace(s[..|s| - 1])
    else s
  }

  predicate IsSpaces(text: string) {
    forall c :: c in text ==> IsSpace(c)
  }

  lemma {:induction false} TrimmedAway(text: string)
    ensures TrimSpace(text) == "" <==> IsSpaces(text)
    decreases |text|
  {
    if text != "" {
      if IsSpace(text[0]) {
        assert text == [text[0]] + text[1..];
        TrimmedAway(text[1..]);
      } else if IsSpace(text[|text| - 1]) {
        var init := text[..|text| - 1];
        assert text[0] == init[0] && text[0] in init && text[0] in text;
        TrimmedAway(init);
      } else {
        assert text[0] in text;
      }
    }
  }

  /** White space goes from both ends, and nothing else. */
  lemma {:induction false} TrimmedText(s: string) returns (before: string, after: string)
    ensures s == before + TrimSpace(s) + after && IsSpaces(before) && IsSpaces(after)
    ensures var t := TrimSpace(s); t != "" ==> !IsSpace(t[0]) && !IsSpace(t[|t| - 1])
    decreases |s|
  {
    hide IsSpace;
    before, after := "", "";
    if s != "" {
      var (first, last, t) := (s[0], s[|s| - 1], TrimSpace(s));
      if IsSpace(first) {
        before, after := TrimmedText(s[1..]);
        Outside(first, before, t, after);
        assert s == [first] + s[1..];
        before := [first] + before;
      } else if IsSpace(last) {
        before, after := TrimmedText(s[..|s| - 1]);
        assert s == s[..|s| - 1] + [last];
        assert before + t + after + [last] == before + t + (after + [last]);
        after := after + [last];
      }
    }
  }

  lemma Outside(first: char, before: string, t: string, after: string)
    ensures [first] + (before + t + after) == [first] + before + t + after
  {
  }

  /** A range of date strings, either end of which may be "" for unbounded. */
  predicate InWindow(start: string, end: string, date: string) {
    if start != "" && LexLess(date, start) then false
    else if end != "" && LexLess(end, date) then false
    else true
  }
}

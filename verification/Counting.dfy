/** Counting the elements of a sequence that meet a condition. */
module Counting {
  function CountIf<T>(s: seq<T>, p: T -> bool): (n: nat)
    ensures n <= |s|
  {
    if s == [] then 0 else (if p(s[0]) then 1 else 0) + CountIf(s[1..], p)
  }

  ghost function Positions<T>(s: seq<T>, p: T -> bool): set<nat> {
    set i: nat | i < |s| && p(s[i])
  }

  /** The count is the number of positions. */
  lemma {:induction false} CountIsSize<T>(s: seq<T>, p: T -> bool)
    ensures |Positions(s, p)| == CountIf(s, p)
  {
    if s == [] {
      assert Positions(s, p) == {};
    } else {
      CountIsSize(s[1..], p);
      var (later, all) := (Positions(s[1..], p), Positions(s, p));
      ShiftedSize(later);
      forall i: nat ensures i in all <==> (i == 0 && p(s[0])) || i in Shifted(later) {
        if i > 0 {
          assert i in Shifted(later) <==> i - 1 in later;
          assert i < |s| ==> s[1..][i - 1] == s[i];
        } else {
          assert 0 !in Shifted(later);
        }
      }
      assert all == (if p(s[0]) then {0} else {}) + Shifted(later);
    }
  }

  ghost function Shifted(s: set<nat>): set<nat> {
    set i: nat | i in s :: i + 1
  }

  lemma {:induction false} ShiftedSize(s: set<nat>)
    ensures |Shifted(s)| == |s|
    decreases |s|
  {
    if s != {} {
      var x :| x in s;
      var rest := s - {x};
      ShiftedSize(rest);
      forall i: nat ensures i in Shifted(s) <==> i in Shifted(rest) || i == x + 1 {
        if i > 0 {
          assert i in Shifted(s) <==> i - 1 in s;
          assert i in Shifted(rest) <==> i - 1 in rest;
        }
      }
      assert Shifted(s) == Shifted(rest) + {x + 1} && x + 1 !in Shifted(rest);
    }
  }

  lemma {:induction false} CountGrows<T>(s: seq<T>, x: T, p: T -> bool)
    ensures CountIf(s + [x], p) == CountIf(s, p) + if p(x) then 1 else 0
  {
    if s == [] {
      assert [] + [x] == [x] && [x][1..] == [];
    } else {
      assert (s + [x])[1..] == s[1..] + [x];
      CountGrows(s[1..], x, p);
    }
  }

  lemma {:induction false} NoneCounted<T>(s: seq<T>, p: T -> bool)
    ensures CountIf(s, p) == 0 <==> forall i :: 0 <= i < |s| ==> !p(s[i])
  {
    if s != [] {
      NoneCounted(s[1..], p);
      assert forall i :: 1 <= i < |s| ==> s[i] == s[1..][i - 1];
      assert forall i :: 0 <= i < |s[1..]| ==> s[1..][i] == s[i + 1];
    }
  }
}

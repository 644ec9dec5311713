/** Sorting by a total preorder, to no more than sort.Slice promises: the result is an
    ascending permutation, and nothing is said about the order of equal elements. */
module Sorting {
  import opened Text

  ghost predicate TotalPreorder<T(!new)>(leq: (T, T) -> bool) {
    && (forall x, y :: leq(x, y) || leq(y, x))
    && (forall x, y, z :: leq(x, y) && leq(y, z) ==> leq(x, z))
  }

  ghost predicate Ascending<T>(leq: (T, T) -> bool, s: seq<T>) {
    forall i, j :: 0 <= i < j < |s| ==> leq(s[i], s[j])
  }

  method Sort<T(!new)>(leq: (T, T) -> bool, s: seq<T>) returns (r: seq<T>)
    requires TotalPreorder(leq)
    ensures Ascending(leq, r) && multiset(r) == multiset(s)
  {
    r := [];
    for n := 0 to |s|
      invariant Ascending(leq, r) && multiset(r) == multiset(s[..n])
    {
      r := Insert(leq, s[n], r);
      assert s[..n + 1] == s[..n] + [s[n]];
    }
    assert s[..|s|] == s;
  }

  method Insert<T(!new)>(leq: (T, T) -> bool, x: T, s: seq<T>) returns (r: seq<T>)
    requires TotalPreorder(leq) && Ascending(leq, s)
    ensures Ascending(leq, r) && multiset(r) == multiset(s) + multiset{x}
  {
    var k := |s|;
    while 0 < k && !leq(s[k - 1], x)
      invariant 0 <= k <= |s|
      invariant forall j :: k <= j < |s| ==> leq(x, s[j])
    {
      k := k - 1;
    }
    r := s[..k] + [x] + s[k..];
    forall j | 0 <= j < k ensures leq(s[j], x) {
      if j < k - 1 {
        Chain(leq, s[j], s[k - 1], x);
      }
    }
    Inserted(leq, x, s, k);
  }

  lemma Chain<T(!new)>(leq: (T, T) -> bool, x: T, y: T, z: T)
    requires TotalPreorder(leq) && leq(x, y) && leq(y, z)
    ensures leq(x, z)
  {
  }

  lemma Inserted<T>(leq: (T, T) -> bool, x: T, s: seq<T>, k: nat)
    requires Ascending(leq, s) && k <= |s|
    requires forall j :: 0 <= j < k ==> leq(s[j], x)
    requires forall j :: k <= j < |s| ==> leq(x, s[j])
    ensures Ascending(leq, s[..k] + [x] + s[k..])
    ensures multiset(s[..k] + [x] + s[k..]) == multiset(s) + multiset{x}
  {
    assert s == s[..k] + s[k..];
    var r := s[..k] + [x] + s[k..];
    forall i, j | 0 <= i < j < |r| ensures leq(r[i], r[j]) {
      var i' := if i < k then i else i - 1;
      var j' := if j < k then j else j - 1;
      assert i != k ==> r[i] == s[i'];
      assert j != k ==> r[j] == s[j'];
    }
  }

  /** Elements the order never ties are distinct places of one ascending arrangement. */
  ghost predicate Antisymmetric<T>(leq: (T, T) -> bool, s: seq<T>) {
    forall x, y :: x in s && y in s && leq(x, y) && leq(y, x) ==> x == y
  }

  lemma {:induction false} AscendingIsUnique<T>(leq: (T, T) -> bool, s: seq<T>, t: seq<T>)
    requires Ascending(leq, s) && Ascending(leq, t) && multiset(s) == multiset(t)
    requires Antisymmetric(leq, s)
    ensures s == t
  {
    assert |multiset(s)| == |s| && |multiset(t)| == |t|;
    if s != [] {
      SameFirst(leq, s, t);
      hide Ascending, Antisymmetric;
      AscendingTail(leq, s);
      AscendingTail(leq, t);
      assert s == [s[0]] + s[1..] && t == [t[0]] + t[1..];
      assert multiset(s) == multiset{s[0]} + multiset(s[1..]);
      assert multiset(t) == multiset{t[0]} + multiset(t[1..]);
      assert multiset(s[1..]) == multiset(s) - multiset{s[0]};
      assert multiset(t[1..]) == multiset(t) - multiset{t[0]};
      AscendingIsUnique(leq, s[1..], t[1..]);
    }
  }

  lemma AscendingTail<T>(leq: (T, T) -> bool, s: seq<T>)
    requires s != []
    ensures Ascending(leq, s) ==> Ascending(leq, s[1..])
    ensures Antisymmetric(leq, s) ==> Antisymmetric(leq, s[1..])
  {
  }

  lemma SameFirst<T>(leq: (T, T) -> bool, s: seq<T>, t: seq<T>)
    requires Ascending(leq, s) && Ascending(leq, t) && multiset(s) == multiset(t)
    requires Antisymmetric(leq, s) && s != []
    ensures t != [] && s[0] == t[0]
  {
    assert s[0] in multiset(t);
    assert t[0] in multiset(s);
    var i :| 0 <= i < |s| && s[i] == t[0];
    var j :| 0 <= j < |t| && t[j] == s[0];
    if i > 0 && j > 0 {
      assert leq(s[0], s[i]) && leq(t[0], t[j]);
    }
  }

  ghost predicate Distinct<T>(s: seq<T>) {
    forall i, j :: 0 <= i < j < |s| ==> s[i] != s[j]
  }

  /** The members of a set in order, as a sort of its iteration in any order gives them. */
  method SortedSet<T(!new, ==)>(leq: (T, T) -> bool, wanted: set<T>) returns (list: seq<T>)
    requires TotalPreorder(leq)
    ensures Ascending(leq, list) && Distinct(list)
    ensures forall x :: x in list <==> x in wanted
  {
    var rest := wanted;
    var any: seq<T> := [];
    while rest != {}
      invariant Distinct(any) && rest <= wanted
      invariant forall x :: x in any <==> x in wanted && x !in rest
      decreases |rest|
    {
      var x :| x in rest;
      any := any + [x];
      rest := rest - {x};
    }
    list := Sort(leq, any);
    SameMembers(any, list);
  }

  lemma SameMembers<T>(distinct: seq<T>, list: seq<T>)
    requires Distinct(distinct) && multiset(list) == multiset(distinct)
    ensures Distinct(list)
    ensures forall x :: x in list <==> x in distinct
  {
    forall x ensures x in list <==> x in distinct {
      assert x in multiset(list) <==> x in multiset(distinct);
    }
    forall i, j | 0 <= i < j < |list| ensures list[i] != list[j] {
      if list[i] == list[j] {
        Twice(list, i, j);
        Once(distinct, list[i]);
      }
    }
  }

  lemma Twice<T>(s: seq<T>, i: nat, j: nat)
    requires i < j < |s| && s[i] == s[j]
    ensures multiset(s)[s[i]] >= 2
  {
    assert s == s[..i] + [s[i]] + s[i + 1..j] + [s[j]] + s[j + 1..];
  }

  lemma {:induction false} Once<T>(s: seq<T>, x: T)
    requires Distinct(s)
    ensures multiset(s)[x] <= 1
  {
    if s != [] {
      Once(s[1..], x);
      assert s == [s[0]] + s[1..];
      assert s[0] == x ==> x !in s[1..];
    }
  }

  lemma LexOrderIsTotal()
    ensures TotalPreorder(LexLeq)
  {
    forall a, b ensures LexLeq(a, b) || LexLeq(b, a) {
      LexTotal(a, b);
    }
    forall a, b, c | LexLeq(a, b) && LexLeq(b, c) ensures LexLeq(a, c) {
      LexLeqTransitive(a, b, c);
    }
  }
}

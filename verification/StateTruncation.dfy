/** jevkit.py: cutting an oversized state down to a budget of characters. */
module StateTruncation {
  import opened Wrappers
  import opened Json

  const FLOOR := 200

  /** The budget every oversized state is cut to. */
  const MAX_STATE_CHARS := 40_000

  /** The budget of each member of a container of n. */
  function Share(budget: nat, n: nat): nat {
    var each := budget / if n < 1 then 1 else n;
    if each < FLOOR then FLOOR else each
  }

  function Truncate(v: Json, budget: nat): Json
    decreases v, 1
  {
    match v
    case Str(text) => Str(if budget < |text| then text[..budget] else text)
    case Obj(keys, values) => Obj(keys, TruncateAll(values, Share(budget, |values|)))
    case Arr(items) => Arr(TruncateAll(items, Share(budget, |items|)))
    case Other(_) => v
  }

  function TruncateAll(items: seq<Json>, budget: nat): (r: seq<Json>)
    ensures |r| == |items|
    decreases items, 0
  {
    if items == [] then [] else [Truncate(items[0], budget)] + TruncateAll(items[1..], budget)
  }

  // ---------------------------------------------------------------- what is kept

  /** w is v with some strings cut short: the same shape, each string a prefix. */
  predicate CutFrom(w: Json, v: Json)
    decreases v, 1
  {
    match (w, v)
    case (Str(short), Str(text)) => short <= text
    case (Obj(keys, values), Obj(keys', values')) => keys == keys' && AllCutFrom(values, values')
    case (Arr(items), Arr(items')) => AllCutFrom(items, items')
    case (Other(a), Other(b)) => a == b
    case _ => false
  }

  predicate AllCutFrom(ws: seq<Json>, vs: seq<Json>)
    decreases vs, 0
  {
    |ws| == |vs| && (vs == [] || (CutFrom(ws[0], vs[0]) && AllCutFrom(ws[1..], vs[1..])))
  }

  lemma {:induction false} TruncationOnlyCuts(v: Json, budget: nat)
    ensures CutFrom(Truncate(v, budget), v)
    ensures Truncate(Truncate(v, budget), budget) == Truncate(v, budget)
    decreases v, 1
  {
    match v
    case Obj(_, values) => AllOnlyCut(values, Share(budget, |values|));
    case Arr(items) => AllOnlyCut(items, Share(budget, |items|));
    case _ =>
  }

  lemma {:induction false} AllOnlyCut(items: seq<Json>, budget: nat)
    ensures AllCutFrom(TruncateAll(items, budget), items)
    ensures TruncateAll(TruncateAll(items, budget), budget) == TruncateAll(items, budget)
    decreases items, 0
  {
    if items != [] {
      TruncationOnlyCuts(items[0], budget);
      AllOnlyCut(items[1..], budget);
      assert TruncateAll(items, budget)[1..] == TruncateAll(items[1..], budget);
    }
  }

  // ---------------------------------------------------------------- every place of a value

  /** The budget that reaches a place, shared out at every container on the way. */
  function BudgetAt(v: Json, path: seq<nat>, budget: nat): nat
    requires NodeAt(v, path).Some?
  {
    if path == [] then budget
    else BudgetAt(Members(v)[path[0]], path[1..], Share(budget, |Members(v)|))
  }

  /** A share is the budget divided evenly, rounded down, or the floor if that is more. */
  lemma SharesAreEven(budget: nat, n: nat)
    requires n > 0
    ensures var s := Share(budget, n);
      && s >= 200
      && (s > 200 ==> n * s <= budget) && budget < n * (s + 1)
  {
    var each := budget / n;
    assert n * each <= budget < n * (each + 1);
    if each < FLOOR {
      assert n * (each + 1) <= n * FLOOR;
    }
  }

  lemma {:induction false} CutMembers(items: seq<Json>, share: nat, i: nat)
    requires i < |items|
    ensures TruncateAll(items, share)[i] == Truncate(items[i], share)
  {
    if i > 0 {
      CutMembers(items[1..], share, i - 1);
    }
  }

  ghost predicate IsCut(was: Option<Json>, node: Option<Json>, budget: nat) {
    if was.None? then node.None?
    else
      && node.Some? && SameKind(was.value, node.value)
      && (was.value.Str? ==>
            node.value.text == if |was.value.text| <= budget then was.value.text else was.value.text[..budget])
  }

  /** At every place there is what there was, keys and all, a string cut to the budget that
      reaches it and no shorter. */
  lemma {:induction false} EveryPlaceIsCut(v: Json, budget: nat, path: seq<nat>)
    ensures IsCut(NodeAt(v, path), NodeAt(Truncate(v, budget), path),
                  if NodeAt(v, path).Some? then BudgetAt(v, path, budget) else 0)
    decreases path
  {
    var (members, share) := (Members(v), Share(budget, |Members(v)|));
    assert Members(Truncate(v, budget)) == if v.Obj? || v.Arr? then TruncateAll(members, share) else [];
    if path != [] && path[0] < |members| {
      CutMembers(members, share, path[0]);
      EveryPlaceIsCut(members[path[0]], share, path[1..]);
    }
  }

  // ---------------------------------------------------------------- how much is left

  function Leaves(v: Json): nat
    decreases v, 1
  {
    match v
    case Str(_) => 1
    case Obj(_, values) => AllLeaves(values)
    case Arr(items) => AllLeaves(items)
    case Other(_) => 0
  }

  function AllLeaves(items: seq<Json>): nat
    decreases items, 0
  {
    if items == [] then 0 else Leaves(items[0]) + AllLeaves(items[1..])
  }

  /** The characters in a value's strings. */
  function Characters(v: Json): nat
    decreases v, 1
  {
    match v
    case Str(text) => |text|
    case Obj(_, values) => AllCharacters(values)
    case Arr(items) => AllCharacters(items)
    case Other(_) => 0
  }

  function AllCharacters(items: seq<Json>): nat
    decreases items, 0
  {
    if items == [] then 0 else Characters(items[0]) + AllCharacters(items[1..])
  }

  /** What a budget leaves beyond the floor for each string. Splitting one string off keeps
      half of it and costs a floor, which pays as long as the other half exceeds 200. */
  function Spare(budget: real): (r: real)
    ensures 0.0 <= r
    decreases budget.Floor
  {
    if budget <= 400.0 then 0.0 else budget / 2.0 - 200.0 + Spare(budget / 2.0)
  }

  lemma {:induction false} SpareAscends(x: real, y: real)
    requires x <= y
    ensures Spare(x) <= Spare(y)
    decreases y.Floor
  {
    if y > 400.0 {
      SpareAscends(x / 2.0, y / 2.0);
    }
  }

  lemma {:induction false} SpareBelow(x: real)
    requires 200.0 <= x
    ensures Spare(x) <= x - 200.0
    decreases x.Floor
  {
    if x > 400.0 {
      SpareBelow(x / 2.0);
    }
  }

  lemma {:induction false} Gain(x: real, s: real)
    requires 0.0 <= 2.0 * s <= x
    ensures Spare(x + s) >= Spare(x) + s - 200.0
    decreases x.Floor
  {
    if x > 400.0 {
      Gain(x / 2.0, s / 2.0);
      assert (x + s) / 2.0 == x / 2.0 + s / 2.0;
    }
  }

  lemma Products(m: nat, s: nat)
    requires m > 2 && s >= FLOOR
    ensures m * s == (m - 1) * s + s && (m - 1) * s >= 2 * s
    ensures (m - 1) * (s - FLOOR) == (m - 2) * (s - FLOOR) + (s - FLOOR)
  {
    assert (m - 1) * s == 2 * s + (m - 3) * s;
  }

  /** m shares of s spare at least what all but one would keep, and the last one's own. */
  lemma {:induction false} Pile(m: nat, s: nat)
    requires m >= 1 && s >= FLOOR
    ensures Spare((m * s) as real) >= Spare(s as real) + ((m - 1) * (s - FLOOR)) as real
  {
    if m == 2 {
      assert (2 * s) as real / 2.0 == s as real;
    } else if m > 2 {
      hide Spare;
      Pile(m - 1, s);
      Products(m, s);
      var (piled, kept) := ((m - 1) * s, (m - 2) * (s - FLOOR));
      Gain(piled as real, s as real);
      assert piled as real + s as real == (m * s) as real;
      assert (kept + (s - FLOOR)) as real == kept as real + s as real - 200.0;
    }
  }

  function Effective(budget: nat): nat {
    if budget < FLOOR then FLOOR else budget
  }

  /** The most a value with so many strings can have left. */
  function Most(budget: nat, leaves: nat): real {
    var (whole, floors) := (Effective(budget) as real, Spare(Effective(budget) as real) + (FLOOR * leaves) as real);
    if leaves == 0 then 0.0 else if whole < floors then floors else whole
  }

  /** The members of a list that hold a string. */
  function Leafy(items: seq<Json>): nat {
    if items == [] then 0 else (if Leaves(items[0]) > 0 then 1 else 0) + Leafy(items[1..])
  }

  lemma {:induction false} LeafyBounds(items: seq<Json>)
    ensures Leafy(items) <= |items| && Leafy(items) <= AllLeaves(items)
    ensures Leafy(items) == 0 ==> AllLeaves(items) == 0
  {
    if items != [] {
      LeafyBounds(items[1..]);
    }
  }

  /** The list analogue, for m members with strings, `leaves` strings in all and a share of s:
      either every member spends its share, or one is below it and the floors count. */
  function MostOfAll(m: nat, s: nat, leaves: nat): real
    requires s >= FLOOR
  {
    var (whole, floors) := ((m * s) as real, Spare(s as real) + ((m - 1) * (s - FLOOR) + FLOOR * leaves) as real);
    if m == 0 then 0.0 else if whole < floors then floors else whole
  }

  lemma OneMoreMember(m: nat, s: nat, rest: nat, leaves: nat)
    requires s >= FLOOR && m <= rest && leaves >= 1 && (m == 0 ==> rest == 0)
    ensures Most(s, leaves) + MostOfAll(m, s, rest) <= MostOfAll(m + 1, s, leaves + rest)
  {
    SpareBelow(s as real);
    assert (m + 1) * s == m * s + s && m * (s - FLOOR) == m * s - FLOOR * m;
    assert m > 0 ==> (m - 1) * (s - FLOOR) == m * (s - FLOOR) - (s - FLOOR);
    hide Spare;
  }

  lemma {:induction false} TightBound(v: Json, budget: nat)
    ensures Characters(Truncate(v, budget)) as real <= Most(budget, Leaves(v))
    decreases v, 1
  {
    match v
    case Obj(_, values) => TightContainer(values, budget);
    case Arr(items) => TightContainer(items, budget);
    case _ =>
  }

  lemma {:induction false} TightContainer(items: seq<Json>, budget: nat)
    ensures AllCharacters(TruncateAll(items, Share(budget, |items|))) as real <= Most(budget, AllLeaves(items))
    decreases items, 1
  {
    var (s, m) := (Share(budget, |items|), Leafy(items));
    TightMembers(items, s);
    LeafyBounds(items);
    if m > 0 {
      SharesFit(budget, |items|, m, AllLeaves(items));
    }
  }

  lemma SharesFit(budget: nat, n: nat, m: nat, leaves: nat)
    requires 1 <= m <= n && m <= leaves
    ensures MostOfAll(m, Share(budget, n), leaves) <= Most(budget, leaves)
  {
    hide Spare;
    var s := Share(budget, n);
    if s > FLOOR {
      Together(budget, n, m);
      Pile(m, s);
      SpareAscends((m * s) as real, budget as real);
    } else {
      SpareOfFloor();
      assert m * FLOOR <= FLOOR * leaves;
    }
  }

  lemma SpareOfFloor()
    ensures Spare(FLOOR as real) == 0.0
  {
  }

  lemma Together(budget: nat, n: nat, m: nat)
    requires 1 <= m <= n
    ensures m * (budget / n) <= budget
  {
    var each := budget / n;
    assert n * each <= budget;
    assert n * each == m * each + (n - m) * each;
  }

  lemma {:induction false} TightMembers(items: seq<Json>, s: nat)
    requires s >= FLOOR
    ensures AllCharacters(TruncateAll(items, s)) as real <= MostOfAll(Leafy(items), s, AllLeaves(items))
    decreases items, 0
  {
    if items != [] {
      TightBound(items[0], s);
      TightMembers(items[1..], s);
      LeafyBounds(items[1..]);
      assert TruncateAll(items, s)[1..] == TruncateAll(items[1..], s);
      if Leaves(items[0]) > 0 {
        OneMoreMember(Leafy(items[1..]), s, AllLeaves(items[1..]), Leaves(items[0]));
      }
    }
  }

  /** The budget is overrun by at most the floor for every string after the first. */
  lemma TruncationBound(v: Json, budget: nat)
    ensures Leaves(v) > 0 ==> Characters(Truncate(v, budget)) <= Effective(budget) + FLOOR * (Leaves(v) - 1)
    ensures Characters(Truncate(v, budget)) <= budget + FLOOR * Leaves(v)
  {
    TightBound(v, budget);
    SpareBelow(Effective(budget) as real);
    hide Spare;
  }

  // ---------------------------------------------------------------- the bound is met

  function Long(n: nat): (text: string)
    ensures |text| == n
  {
    if n == 0 then "" else "x" + Long(n - 1)
  }

  function Text(): (v: Json)
    ensures v.Str? && |v.text| == MAX_STATE_CHARS
  {
    Str(Long(MAX_STATE_CHARS))
  }

  function Strings(n: nat): (items: seq<Json>)
    ensures |items| == n
  {
    if n == 0 then [] else [Text()] + Strings(n - 1)
  }

  /** A list of n long strings: each is cut to its share. */
  lemma {:induction false} CutAlike(n: nat, share: nat)
    requires share <= MAX_STATE_CHARS
    ensures AllCharacters(TruncateAll(Strings(n), share)) == n * share && AllLeaves(Strings(n)) == n
  {
    if n > 0 {
      CutAlike(n - 1, share);
      Cons(Text(), Strings(n - 1), share);
      assert n * share == (n - 1) * share + share;
    }
  }

  /** Up to the floor every string of a flat list is left that long, which is the most. */
  lemma FloorIsMet(n: nat, budget: nat)
    requires n > 0 && budget <= FLOOR
    ensures Leaves(Arr(Strings(n))) == n
    ensures Characters(Truncate(Arr(Strings(n)), budget)) as real == Most(budget, n)
  {
    assert budget / n <= budget;
    CutAlike(n, FLOOR);
  }

  /** A long string beside a tail, `depth` times over. */
  function Chain(depth: nat, tail: Json): Json {
    if depth == 0 then tail else Arr([Text(), Chain(depth - 1, tail)])
  }

  function Halved(depth: nat, budget: nat): nat {
    if depth == 0 then budget else Halved(depth - 1, budget / 2)
  }

  function Halves(depth: nat, budget: nat): nat {
    if depth == 0 then 0 else budget / 2 + Halves(depth - 1, budget / 2)
  }

  lemma {:induction false} HalvedBelow(depth: nat, budget: nat)
    ensures Halved(depth, budget) <= budget
  {
    if depth > 0 {
      HalvedBelow(depth - 1, budget / 2);
    }
  }

  lemma {:induction false} ChainCut(depth: nat, tail: Json, budget: nat)
    requires FLOOR <= Halved(depth, budget) && budget <= MAX_STATE_CHARS
    ensures Leaves(Chain(depth, tail)) == depth + Leaves(tail)
    ensures Characters(Truncate(Chain(depth, tail), budget))
         == Halves(depth, budget) + Characters(Truncate(tail, Halved(depth, budget)))
  {
    if depth > 0 {
      HalvedBelow(depth - 1, budget / 2);
      ChainCut(depth - 1, tail, budget / 2);
      LinkCut(Chain(depth - 1, tail), budget);
    }
  }

  lemma LinkCut(rest: Json, budget: nat)
    requires FLOOR <= budget / 2 && budget <= MAX_STATE_CHARS
    ensures Leaves(Arr([Text(), rest])) == 1 + Leaves(rest)
    ensures Characters(Truncate(Arr([Text(), rest]), budget))
         == budget / 2 + Characters(Truncate(rest, budget / 2))
  {
    assert [Text(), rest] == [Text()] + ([rest] + []);
    Cons(Text(), [rest], budget / 2);
    Cons(rest, [], budget / 2);
    hide Leaves, Text;
    assert Characters(Truncate(Text(), budget / 2)) == budget / 2;
  }

  lemma Cons(v: Json, items: seq<Json>, share: nat)
    ensures AllLeaves([v] + items) == Leaves(v) + AllLeaves(items)
    ensures AllCharacters(TruncateAll([v] + items, share))
         == Characters(Truncate(v, share)) + AllCharacters(TruncateAll(items, share))
  {
    var all := [v] + items;
    assert all[0] == v && all[1..] == items;
    var cut := TruncateAll(all, share);
    assert cut[0] == Truncate(v, share) && cut[1..] == TruncateAll(items, share);
  }

  /** The most that is left of a state cut to the budget the code sets. */
  function MostLeft(leaves: nat): nat {
    if leaves == 0 then 0 else if leaves <= 8 then MAX_STATE_CHARS else 38_287 + FLOOR * leaves
  }

  lemma SpareOfTheBudget()
    ensures Spare(40000.0) == 38287.5
  {
    assert Spare(312.5) == 0.0;
    assert Spare(1250.0) == 537.5;
    assert Spare(5000.0) == 3887.5;
    assert Spare(20000.0) == 18487.5;
  }

  lemma HalvesOfTheBudget(depth: nat)
    requires depth <= 7
    ensures Halved(depth, MAX_STATE_CHARS) == [40000, 20000, 10000, 5000, 2500, 1250, 625, 312][depth]
    ensures Halves(depth, MAX_STATE_CHARS) == [0, 20000, 30000, 35000, 37500, 38750, 39375, 39687][depth]
  {
    HalvingOnce(depth, MAX_STATE_CHARS);
    if depth > 0 {
      HalvesOfTheBudget(depth - 1);
    }
  }

  lemma {:induction false} HalvingOnce(depth: nat, budget: nat)
    ensures depth > 0 ==> Halved(depth, budget) == Halved(depth - 1, budget) / 2
    ensures depth > 0 ==> Halves(depth, budget) == Halves(depth - 1, budget) + Halved(depth - 1, budget) / 2
  {
    if depth > 1 {
      HalvingOnce(depth - 1, budget / 2);
    }
  }

  function Widest(leaves: nat): Json {
    if leaves == 0 then Other("null")
    else if leaves <= 7 then Chain(leaves - 1, Text())
    else if leaves == 8 then Arr(Strings(8))
    else Chain(7, Arr(Strings(leaves - 7)))
  }

  lemma WidestHas(leaves: nat)
    ensures Leaves(Widest(leaves)) == leaves
    ensures Characters(Truncate(Widest(leaves), MAX_STATE_CHARS)) == MostLeft(leaves)
  {
    hide Strings, Chain;
    if 1 <= leaves <= 7 {
      HalvesOfTheBudget(leaves - 1);
      ChainCut(leaves - 1, Text(), MAX_STATE_CHARS);
    } else if leaves == 8 {
      CutAlike(8, 5000);
    } else if leaves > 8 {
      var n := leaves - 7;
      HalvesOfTheBudget(7);
      ChainCut(7, Arr(Strings(n)), MAX_STATE_CHARS);
      assert 312 / n <= 156;
      CutAlike(n, FLOOR);
    }
  }

  /** At the budget the code sets the maximum is known for every number of strings: up to
      eight share the budget, and from there on each one adds the floor. */
  lemma MostLeftIsExact(leaves: nat)
    ensures forall v :: Leaves(v) == leaves ==> Characters(Truncate(v, MAX_STATE_CHARS)) <= MostLeft(leaves)
    ensures exists v :: Leaves(v) == leaves && Characters(Truncate(v, MAX_STATE_CHARS)) == MostLeft(leaves)
  {
    forall v | Leaves(v) == leaves ensures Characters(Truncate(v, MAX_STATE_CHARS)) <= MostLeft(leaves) {
      TightBound(v, MAX_STATE_CHARS);
      SpareOfTheBudget();
      hide Spare, Truncate, Characters, Leaves;
    }
    WidestHas(leaves);
    assert Leaves(Widest(leaves)) == leaves;
  }
}

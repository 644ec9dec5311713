/** jevkit.py: choosing the threshold of a score from labelled pairs. Quotients are exact
    here; rounding is Python's, to the nearest and on a tie to the even neighbour. */
module Calibration {
  import opened Counting
  import opened Sorting

  type Pairs = seq<(real, bool)>

  function Nearest(y: real): int {
    var f := y.Floor;
    var d := y - f as real;
    if d < 0.5 || (d == 0.5 && f % 2 == 0) then f else f + 1
  }

  function Round3(x: real): real {
    Nearest(x * 1000.0) as real / 1000.0
  }

  function Round4(x: real): real {
    Nearest(x * 10000.0) as real / 10000.0
  }

  /** k is an integer nearest to y, the even one on a tie. */
  predicate IsNearest(y: real, k: int) {
    -0.5 <= y - k as real <= 0.5 && (y - k as real == 0.5 || y - k as real == -0.5 ==> k % 2 == 0)
  }

  /** r is x rounded to a multiple of 1 / n. */
  ghost predicate IsRounding(x: real, n: real, r: real)
    requires n > 0.0
  {
    IsNearestPart(x * n, n, r)
  }

  ghost predicate IsNearestPart(y: real, n: real, r: real)
    requires n > 0.0
  {
    exists k :: IsNearest(y, k) && r == k as real / n
  }

  lemma RoundsToNearest(x: real, r: real)
    ensures IsRounding(x, 1000.0, r) <==> r == Round3(x)
    ensures IsRounding(x, 10000.0, r) <==> r == Round4(x)
  {
    NearestIsUnique(x * 1000.0);
    NearestIsUnique(x * 10000.0);
    hide Nearest, IsNearest;
    assert IsNearest(x * 1000.0, Nearest(x * 1000.0)) && IsNearest(x * 10000.0, Nearest(x * 10000.0));
  }

  lemma NearestIsUnique(y: real)
    ensures forall k :: IsNearest(y, k) <==> k == Nearest(y)
  {
  }

  lemma NearestAscends(x: real, y: real)
    requires x <= y
    ensures Nearest(x) <= Nearest(y)
  {
  }

  lemma RoundingAscends(x: real, y: real)
    requires x <= y
    ensures Round3(x) <= Round3(y)
  {
    NearestAscends(x * 1000.0, y * 1000.0);
  }

  lemma RecallRoundingAscends(x: real, y: real)
    requires x <= y
    ensures Round4(x) <= Round4(y)
  {
    NearestAscends(x * 10000.0, y * 10000.0);
  }

  lemma RoundingOnce(x: real)
    ensures Round3(Round3(x)) == Round3(x)
  {
    var n := Nearest(x * 1000.0);
    assert n as real / 1000.0 * 1000.0 == n as real;
    assert (n as real).Floor == n;
  }

  // ---------------------------------------------------------------- the confusion counts

  function Counted(th: real, above: bool, positive: bool): ((real, bool)) -> bool {
    (p: (real, bool)) => (p.0 >= th) == above && p.1 == positive
  }

  function Count(pairs: Pairs, th: real, above: bool, positive: bool): nat {
    CountIf(pairs, Counted(th, above, positive))
  }

  function TP(pairs: Pairs, th: real): nat { Count(pairs, th, true, true) }
  function FP(pairs: Pairs, th: real): nat { Count(pairs, th, true, false) }
  function FN(pairs: Pairs, th: real): nat { Count(pairs, th, false, true) }

  function Ratio(part: nat, rest: nat, default: real): real {
    if part + rest == 0 then default else part as real / (part + rest) as real
  }

  function Precision(pairs: Pairs, th: real): real {
    Ratio(TP(pairs, th), FP(pairs, th), 1.0)
  }

  function Recall(pairs: Pairs, th: real): real {
    Ratio(TP(pairs, th), FN(pairs, th), 0.0)
  }

  predicate Feasible(pairs: Pairs, th: real, minPrecision: real, minRecall: real) {
    Precision(pairs, th) >= minPrecision && Recall(pairs, th) >= minRecall
  }

  ghost function Scores(pairs: Pairs): set<real> {
    set p | p in pairs :: p.0
  }

  ghost predicate InGrid(pairs: Pairs, g: real) {
    exists s :: s in Scores(pairs) && g == Round3(s)
  }

  lemma {:induction false} CountsMove(pairs: Pairs, low: real, high: real)
    requires low <= high
    ensures TP(pairs, high) <= TP(pairs, low)
    ensures TP(pairs, high) + FN(pairs, high) == TP(pairs, low) + FN(pairs, low)
  {
    if pairs != [] {
      CountsMove(pairs[1..], low, high);
    }
  }

  /** Raising the threshold never raises the recall. */
  lemma RecallDescends(pairs: Pairs, low: real, high: real)
    requires low <= high
    ensures Recall(pairs, high) <= Recall(pairs, low)
  {
    CountsMove(pairs, low, high);
    var n := TP(pairs, low) + FN(pairs, low);
    if n > 0 {
      QuotientAscends(TP(pairs, high) as real, TP(pairs, low) as real, n as real);
    }
  }

  lemma QuotientAscends(x: real, y: real, n: real)
    requires x <= y && n > 0.0
    ensures x / n <= y / n
  {
    assert y / n - x / n == (y - x) / n;
  }

  // ---------------------------------------------------------------- the floors, over positions

  /** Where the scores reach the threshold, and where the label is true. */
  ghost function Chosen(pairs: Pairs, th: real): set<nat> {
    set i: nat | i < |pairs| && pairs[i].0 >= th
  }

  ghost function Labelled(pairs: Pairs): set<nat> {
    set i: nat | i < |pairs| && pairs[i].1
  }

  ghost function Share(part: set<nat>, whole: set<nat>, default: real): real {
    if whole == {} then default else |part| as real / |whole| as real
  }

  /** What share of the chosen is labelled, and what share of the labelled is chosen. */
  ghost predicate MeetsFloors(pairs: Pairs, th: real, minPrecision: real, minRecall: real) {
    var (s, p) := (Chosen(pairs, th), Labelled(pairs));
    Share(s * p, s, 1.0) >= minPrecision && Share(s * p, p, 0.0) >= minRecall
  }

  lemma CountsAreSizes(pairs: Pairs, th: real)
    ensures var (s, p) := (Chosen(pairs, th), Labelled(pairs));
      TP(pairs, th) == |s * p| && FP(pairs, th) == |s - p| && FN(pairs, th) == |p - s|
  {
    hide Chosen, Labelled, Cell, Count;
    CountIsCell(pairs, th, true, true);
    CountIsCell(pairs, th, true, false);
    CountIsCell(pairs, th, false, true);
    CellsArePieces(pairs, th);
  }

  lemma CellsArePieces(pairs: Pairs, th: real)
    ensures var (s, p) := (Chosen(pairs, th), Labelled(pairs));
      && Cell(pairs, th, true, true) == s * p
      && Cell(pairs, th, true, false) == s - p
      && Cell(pairs, th, false, true) == p - s
  {
  }

  ghost function Cell(pairs: Pairs, th: real, above: bool, positive: bool): set<nat> {
    set i: nat | i < |pairs| && (pairs[i].0 >= th) == above && pairs[i].1 == positive
  }

  lemma CountIsCell(pairs: Pairs, th: real, above: bool, positive: bool)
    ensures Count(pairs, th, above, positive) == |Cell(pairs, th, above, positive)|
  {
    CountIsSize(pairs, Counted(th, above, positive));
    assert Positions(pairs, Counted(th, above, positive)) == Cell(pairs, th, above, positive);
  }

  lemma InAndOut(a: set<nat>, b: set<nat>)
    ensures |a| == |a * b| + |a - b|
  {
    assert a == a * b + (a - b);
  }

  lemma QuotientsAreShares(pairs: Pairs, th: real)
    ensures var (s, p) := (Chosen(pairs, th), Labelled(pairs));
      Precision(pairs, th) == Share(s * p, s, 1.0) && Recall(pairs, th) == Share(s * p, p, 0.0)
  {
    var (s, p) := (Chosen(pairs, th), Labelled(pairs));
    CountsAreSizes(pairs, th);
    InAndOut(s, p);
    InAndOut(p, s);
    assert p * s == s * p;
    hide Chosen, Labelled, TP, FP, FN;
  }

  // ---------------------------------------------------------------- the search

  datatype Candidate = Candidate(threshold: real, precision: real, recall: real, tp: nat, fp: nat, fn: nat)

  datatype Outcome = NoPairs | NoThreshold(positives: nat) | Found(best: Candidate)

  function CandidateAt(pairs: Pairs, th: real): Candidate {
    Candidate(th, Round4(Precision(pairs, th)), Round4(Recall(pairs, th)),
              TP(pairs, th), FP(pairs, th), FN(pairs, th))
  }

  ghost predicate IsSmallestFeasible(pairs: Pairs, th: real, minPrecision: real, minRecall: real) {
    && InGrid(pairs, th) && Feasible(pairs, th, minPrecision, minRecall)
    && forall g :: InGrid(pairs, g) && Feasible(pairs, g, minPrecision, minRecall) ==> th <= g
  }

  lemma RealsAreOrdered()
    ensures TotalPreorder((x: real, y: real) => x <= y)
  {
  }

  function Grid(pairs: Pairs): set<real> {
    set p | p in pairs :: Round3(p.0)
  }

  lemma GridHolds(pairs: Pairs)
    ensures forall x :: InGrid(pairs, x) <==> x in Grid(pairs)
  {
    forall x ensures InGrid(pairs, x) <==> x in Grid(pairs) {
      if x in Grid(pairs) {
        var p :| p in pairs && x == Round3(p.0);
        assert p.0 in Scores(pairs);
      }
    }
  }

  /** The least rounded score that meets the floors, with the counts there. */
  ghost predicate IsLeast(pairs: Pairs, c: Candidate, minPrecision: real, minRecall: real) {
    var (s, p) := (Chosen(pairs, c.threshold), Labelled(pairs));
    && InGrid(pairs, c.threshold) && MeetsFloors(pairs, c.threshold, minPrecision, minRecall)
    && (forall g :: InGrid(pairs, g) && MeetsFloors(pairs, g, minPrecision, minRecall) ==> c.threshold <= g)
    && c.tp == |s * p| && c.fp == |s - p| && c.fn == |p - s|
    && IsRounding(Share(s * p, s, 1.0), 10000.0, c.precision) && IsRounding(Share(s * p, p, 0.0), 10000.0, c.recall)
  }

  lemma FloorsAreMetIff(pairs: Pairs, th: real, minPrecision: real, minRecall: real)
    ensures Feasible(pairs, th, minPrecision, minRecall) <==> MeetsFloors(pairs, th, minPrecision, minRecall)
  {
    QuotientsAreShares(pairs, th);
    hide Precision, Recall, Share, Chosen, Labelled;
  }

  lemma SmallestIsLeast(pairs: Pairs, th: real, minPrecision: real, minRecall: real)
    requires IsSmallestFeasible(pairs, th, minPrecision, minRecall)
    ensures IsLeast(pairs, CandidateAt(pairs, th), minPrecision, minRecall)
    ensures InGrid(pairs, th) && MeetsFloors(pairs, th, minPrecision, minRecall)
  {
    CountsAreSizes(pairs, th);
    QuotientsAreShares(pairs, th);
    RoundsToNearest(Precision(pairs, th), Round4(Precision(pairs, th)));
    RoundsToNearest(Recall(pairs, th), Round4(Recall(pairs, th)));
    forall g ensures Feasible(pairs, g, minPrecision, minRecall) <==> MeetsFloors(pairs, g, minPrecision, minRecall) {
      FloorsAreMetIff(pairs, g, minPrecision, minRecall);
    }
    hide Precision, Recall, Share, Chosen, Labelled, TP, FP, FN, Round4, Feasible, MeetsFloors, InGrid, IsRounding;
  }

  lemma NoneIsFeasible(pairs: Pairs, minPrecision: real, minRecall: real)
    requires forall g :: InGrid(pairs, g) ==> !Feasible(pairs, g, minPrecision, minRecall)
    ensures forall g :: InGrid(pairs, g) ==> !MeetsFloors(pairs, g, minPrecision, minRecall)
  {
    forall g | InGrid(pairs, g) ensures !MeetsFloors(pairs, g, minPrecision, minRecall) {
      FloorsAreMetIff(pairs, g, minPrecision, minRecall);
    }
  }

  /** The search compares rounded recalls and keeps the first best. What it finds is the least
      rounded score that meets the floors, and nothing exactly when none does. */
  method CalibrateThreshold(pairs: Pairs, minPrecision: real, minRecall: real) returns (r: Outcome)
    ensures r == NoPairs <==> pairs == []
    ensures r.NoThreshold? <==>
              pairs != [] && forall g :: InGrid(pairs, g) ==> !MeetsFloors(pairs, g, minPrecision, minRecall)
    ensures r.NoThreshold? ==> r.positives == |Labelled(pairs)|
    ensures r.Found? ==>
              && IsLeast(pairs, r.best, minPrecision, minRecall)
              && IsSmallestFeasible(pairs, r.best.threshold, minPrecision, minRecall)
  {
    if pairs == [] {
      return NoPairs;
    }
    RealsAreOrdered();
    var grid := SortedSet((x: real, y: real) => x <= y, Grid(pairs));
    GridHolds(pairs);
    hide Round3, Round4, Recall, Precision, Count, InGrid, Grid, IsLeast, MeetsFloors, Labelled;
    var found, best := false, CandidateAt(pairs, 0.0);
    for i := 0 to |grid|
      invariant !found ==> forall j :: 0 <= j < i ==> !Feasible(pairs, grid[j], minPrecision, minRecall)
      invariant found ==> exists k :: FirstFeasible(pairs, grid, i, k, minPrecision, minRecall)
                                      && best == CandidateAt(pairs, grid[k])
    {
      if !Feasible(pairs, grid[i], minPrecision, minRecall) {
        continue;
      }
      var cand := CandidateAt(pairs, grid[i]);
      if found {
        ghost var k :| FirstFeasible(pairs, grid, i, k, minPrecision, minRecall)
                       && best == CandidateAt(pairs, grid[k]);
        RecallDescends(pairs, grid[k], grid[i]);
        RecallRoundingAscends(Recall(pairs, grid[i]), Recall(pairs, grid[k]));
      }
      if !found || cand.recall > best.recall {
        assert FirstFeasible(pairs, grid, i + 1, i, minPrecision, minRecall);
        found, best := true, cand;
      }
    }
    if !found {
      var tp := TP(pairs, 0.0) + FN(pairs, 0.0);
      NoneIsFeasible(pairs, minPrecision, minRecall);
      AllLabelled(pairs);
      return NoThreshold(tp);
    }
    SmallestIsLeast(pairs, best.threshold, minPrecision, minRecall);
    return Found(best);
  }

  lemma AllLabelled(pairs: Pairs)
    ensures TP(pairs, 0.0) + FN(pairs, 0.0) == |Labelled(pairs)|
  {
    var (s, p) := (Chosen(pairs, 0.0), Labelled(pairs));
    CountsAreSizes(pairs, 0.0);
    InAndOut(p, s);
    assert p * s == s * p;
  }

  ghost predicate FirstFeasible(pairs: Pairs, grid: seq<real>, n: int, k: int, minPrecision: real, minRecall: real) {
    && 0 <= k < n <= |grid| && Feasible(pairs, grid[k], minPrecision, minRecall)
    && forall j :: 0 <= j < k ==> !Feasible(pairs, grid[j], minPrecision, minRecall)
  }

  /** So no grid value that meets the floors has a larger recall. */
  lemma ChosenHasTheBestGridRecall(pairs: Pairs, th: real, g: real, minPrecision: real, minRecall: real)
    requires IsSmallestFeasible(pairs, th, minPrecision, minRecall)
    requires InGrid(pairs, g) && Feasible(pairs, g, minPrecision, minRecall)
    ensures Recall(pairs, g) <= Recall(pairs, th)
  {
    RecallDescends(pairs, th, g);
  }

  // ---------------------------------------------------------------- all real thresholds

  /** The two thresholds split the scores alike. */
  ghost predicate SameCut(scores: set<real>, a: real, b: real) {
    forall x :: x in scores ==> (x >= a <==> x >= b)
  }

  lemma {:induction false} SameCutSameCounts(pairs: Pairs, scores: set<real>, a: real, b: real, above: bool, positive: bool)
    requires Scores(pairs) <= scores && SameCut(scores, a, b)
    ensures Count(pairs, a, above, positive) == Count(pairs, b, above, positive)
  {
    if pairs != [] {
      assert pairs[0] in pairs && pairs[0].0 in Scores(pairs);
      assert forall p :: p in pairs[1..] ==> p in pairs;
      SameCutSameCounts(pairs[1..], scores, a, b, above, positive);
    }
  }

  /** Rounding moves no score past another: each splits the scores as its rounding does.
      Scores exact to three decimals are the plainest case. */
  ghost predicate RoundingIsHarmless(pairs: Pairs) {
    forall s :: s in Scores(pairs) ==> SameCut(Scores(pairs), s, Round3(s))
  }

  lemma ExactScoresAreHarmless(pairs: Pairs)
    requires forall s :: s in Scores(pairs) ==> Round3(s) == s
    ensures RoundingIsHarmless(pairs)
  {
  }

  lemma {:induction false} SmallestFrom(scores: set<real>, th: real) returns (s: real)
    requires exists x :: x in scores && x >= th
    ensures s in scores && s >= th && forall x :: x in scores && x >= th ==> s <= x
    decreases |scores|
  {
    var x :| x in scores && x >= th;
    if y :| y in scores && th <= y < x {
      var rest := scores - {x};
      assert y in rest && scores == rest + {x};
      s := SmallestFrom(rest, th);
    } else {
      s := x;
    }
  }

  /** Where rounding is harmless, any real threshold that selects a score is matched by a grid
      value with the same counts. */
  lemma GridMatchesReal(pairs: Pairs, th: real) returns (g: real)
    requires RoundingIsHarmless(pairs) && exists x :: x in Scores(pairs) && x >= th
    ensures InGrid(pairs, g)
    ensures Precision(pairs, g) == Precision(pairs, th) && Recall(pairs, g) == Recall(pairs, th)
  {
    var s := SmallestFrom(Scores(pairs), th);
    g := Round3(s);
    assert SameCut(Scores(pairs), s, g) && SameCut(Scores(pairs), th, s);
    assert SameCut(Scores(pairs), g, th);
    SameCutSameCounts(pairs, Scores(pairs), g, th, true, true);
    SameCutSameCounts(pairs, Scores(pairs), g, th, true, false);
    SameCutSameCounts(pairs, Scores(pairs), g, th, false, true);
  }

  lemma {:induction false} NothingSelected(pairs: Pairs, th: real)
    requires forall p :: p in pairs ==> p.0 < th
    ensures TP(pairs, th) == 0
  {
    if pairs != [] {
      assert pairs[0] in pairs;
      assert forall p :: p in pairs[1..] ==> p in pairs;
      NothingSelected(pairs[1..], th);
    }
  }

  /** Where rounding is harmless, no real threshold that meets the floors has a larger recall
      than the one chosen; and one that meets them and selects a score exists exactly when
      one is chosen. */
  lemma ChosenHasTheBestRecall(pairs: Pairs, th: real, real': real, minPrecision: real, minRecall: real)
    requires RoundingIsHarmless(pairs)
    requires IsSmallestFeasible(pairs, th, minPrecision, minRecall)
    requires Feasible(pairs, real', minPrecision, minRecall)
    ensures Recall(pairs, real') <= Recall(pairs, th)
  {
    if exists x :: x in Scores(pairs) && x >= real' {
      var g := GridMatchesReal(pairs, real');
      ChosenHasTheBestGridRecall(pairs, th, g, minPrecision, minRecall);
    } else {
      forall p | p in pairs ensures p.0 < real' {
        assert p.0 in Scores(pairs);
      }
      NothingSelected(pairs, real');
    }
  }

  ghost predicate Selects(pairs: Pairs, th: real) {
    exists x :: x in Scores(pairs) && x >= th
  }

  /** What the search is for: whatever the floors, a threshold that selects a score and meets
      them is answered by a choice with at least its recall. */
  ghost predicate AlwaysBest(pairs: Pairs) {
    forall th, minPrecision, minRecall ::
      Selects(pairs, th) && Feasible(pairs, th, minPrecision, minRecall) ==>
        exists c :: IsSmallestFeasible(pairs, c, minPrecision, minRecall) && Recall(pairs, th) <= Recall(pairs, c)
  }

  /** Some grid value is as good as the threshold th in both respects. */
  ghost predicate GridIsAsGood(pairs: Pairs, th: real) {
    exists g :: InGrid(pairs, g) && Precision(pairs, g) >= Precision(pairs, th) && Recall(pairs, g) >= Recall(pairs, th)
  }

  lemma {:induction false} SmallestFeasibleFrom(pairs: Pairs, grid: set<real>, g: real, minPrecision: real, minRecall: real)
    returns (c: real)
    requires forall x :: InGrid(pairs, x) <==> x in grid
    requires g in grid && Feasible(pairs, g, minPrecision, minRecall)
    ensures IsSmallestFeasible(pairs, c, minPrecision, minRecall) && c <= g
    decreases |Below(grid, g)|
  {
    hide Feasible, InGrid;
    if x :| x in grid && x < g && Feasible(pairs, x, minPrecision, minRecall) {
      FewerBelow(grid, x, g);
      c := SmallestFeasibleFrom(pairs, grid, x, minPrecision, minRecall);
    } else {
      c := g;
    }
  }

  /** A threshold that selects a score has the counts of the smallest score it selects. */
  lemma SelectingIsAScore(pairs: Pairs, th: real) returns (s: real)
    requires Selects(pairs, th)
    ensures s in Scores(pairs) && s >= th
    ensures Precision(pairs, s) == Precision(pairs, th) && Recall(pairs, s) == Recall(pairs, th)
  {
    s := SmallestFrom(Scores(pairs), th);
    assert SameCut(Scores(pairs), s, th);
    SameCutSameCounts(pairs, Scores(pairs), s, th, true, true);
    SameCutSameCounts(pairs, Scores(pairs), s, th, true, false);
    SameCutSameCounts(pairs, Scores(pairs), s, th, false, true);
  }

  lemma GoodGridGivesBest(pairs: Pairs, th: real, minPrecision: real, minRecall: real)
    requires forall s :: s in Scores(pairs) ==> GridIsAsGood(pairs, s)
    requires Selects(pairs, th) && Feasible(pairs, th, minPrecision, minRecall)
    ensures exists c :: IsSmallestFeasible(pairs, c, minPrecision, minRecall) && Recall(pairs, th) <= Recall(pairs, c)
  {
    hide Precision, Recall, InGrid, Selects, IsSmallestFeasible, Scores, Grid;
    var s := SelectingIsAScore(pairs, th);
    assert GridIsAsGood(pairs, s);
    var g :| InGrid(pairs, g) && Precision(pairs, g) >= Precision(pairs, s) && Recall(pairs, g) >= Recall(pairs, s);
    GridHolds(pairs);
    var c := SmallestFeasibleFrom(pairs, Grid(pairs), g, minPrecision, minRecall);
    RecallDescends(pairs, c, g);
  }

  lemma BestGivesGoodGrid(pairs: Pairs, s: real)
    requires AlwaysBest(pairs) && s in Scores(pairs)
    ensures GridIsAsGood(pairs, s)
  {
    hide Precision, Recall, InGrid;
    assert Selects(pairs, s) && Feasible(pairs, s, Precision(pairs, s), Recall(pairs, s));
    var c :| IsSmallestFeasible(pairs, c, Precision(pairs, s), Recall(pairs, s)) && Recall(pairs, s) <= Recall(pairs, c);
  }

  /** The choice is the best there is, whatever the floors, exactly when every score, taken as
      a threshold, has a grid value at least as precise that recalls at least as much. */
  lemma ChoiceIsBestIff(pairs: Pairs)
    ensures AlwaysBest(pairs) <==> forall s :: s in Scores(pairs) ==> GridIsAsGood(pairs, s)
  {
    hide GridIsAsGood, Precision, Recall, InGrid, Selects, IsSmallestFeasible, Scores;
    if forall s :: s in Scores(pairs) ==> GridIsAsGood(pairs, s) {
      forall th, minPrecision, minRecall | Selects(pairs, th) && Feasible(pairs, th, minPrecision, minRecall)
        ensures exists c :: IsSmallestFeasible(pairs, c, minPrecision, minRecall) && Recall(pairs, th) <= Recall(pairs, c)
      {
        GoodGridGivesBest(pairs, th, minPrecision, minRecall);
      }
    }
    if AlwaysBest(pairs) {
      forall s | s in Scores(pairs) ensures GridIsAsGood(pairs, s) {
        BestGivesGoodGrid(pairs, s);
      }
    }
  }

  /** Harmless rounding is enough for that, and so are scores exact to three decimals. */
  lemma HarmlessRoundingIsBest(pairs: Pairs)
    requires RoundingIsHarmless(pairs)
    ensures AlwaysBest(pairs)
  {
    forall s | s in Scores(pairs) ensures GridIsAsGood(pairs, s) {
      var g := GridMatchesReal(pairs, s);
    }
    ChoiceIsBestIff(pairs);
  }

  /** But it is not needed: one negative score of 0.9996 rounds past itself and loses nothing. */
  lemma HarmfulRoundingCanBeBest()
    ensures var pairs: Pairs := [(0.9996, false)]; AlwaysBest(pairs) && !RoundingIsHarmless(pairs)
  {
    var pairs: Pairs := [(0.9996, false)];
    OneScore(0.9996, false);
    assert Round3(0.9996) == 1.0;
    assert InGrid(pairs, 1.0) && FP(pairs, 1.0) == 0 && TP(pairs, 1.0) == 0 && TP(pairs, 0.9996) == 0;
    assert FP(pairs, 0.9996) == 1 && FN(pairs, 1.0) == 0 && FN(pairs, 0.9996) == 0;
    assert GridIsAsGood(pairs, 0.9996);
    ChoiceIsBestIff(pairs);
    assert !SameCut(Scores(pairs), 0.9996, Round3(0.9996));
  }

  lemma OneScore(score: real, positive: bool)
    ensures Scores([(score, positive)]) == {score} && score in Scores([(score, positive)])
  {
    var pairs: Pairs := [(score, positive)];
    assert pairs[0] in pairs;
  }

  lemma SomethingFeasibleIff(pairs: Pairs, minPrecision: real, minRecall: real)
    requires RoundingIsHarmless(pairs)
    ensures (exists th, x :: x in Scores(pairs) && x >= th && Feasible(pairs, th, minPrecision, minRecall))
       <==> (exists g :: InGrid(pairs, g) && Feasible(pairs, g, minPrecision, minRecall))
  {
    if th, x :| x in Scores(pairs) && x >= th && Feasible(pairs, th, minPrecision, minRecall) {
      var g := GridMatchesReal(pairs, th);
    }
    if g :| InGrid(pairs, g) && Feasible(pairs, g, minPrecision, minRecall) {
      var s :| s in Scores(pairs) && g == Round3(s);
      assert SameCut(Scores(pairs), s, g);
      assert s >= g;
    }
  }

  /** Every way of splitting the scores that keeps one of them can be had from the grid. */
  ghost predicate GridReachesEveryCut(pairs: Pairs) {
    forall s {:trigger Reached(pairs, s)} :: s in Scores(pairs) ==> Reached(pairs, s)
  }

  ghost predicate Reached(pairs: Pairs, s: real) {
    exists t :: t in Scores(pairs) && SameCut(Scores(pairs), s, Round3(t))
  }

  ghost function Below(scores: set<real>, t: real): set<real> {
    set x | x in scores && x < t
  }

  /** The score s lies in its own cut, so a grid value with that cut is not above it; and a
      score t outside it lies below that value. */
  lemma CutBounds(scores: set<real>, s: real, t: real, g: real)
    requires s in scores && t in scores && SameCut(scores, s, g)
    ensures g <= s && (t < s ==> t < g)
  {
  }

  lemma {:induction false} NoScoreRoundsUp(pairs: Pairs, scores: set<real>, t: real)
    requires scores == Scores(pairs) && GridReachesEveryCut(pairs) && t in scores
    ensures Round3(t) <= t
    decreases |Below(scores, t)|
  {
    hide Round3;
    if Round3(t) > t {
      assert Reached(pairs, t);
      var u :| u in scores && SameCut(scores, t, Round3(u));
      CutBounds(scores, t, u, Round3(u));
      if u >= t {
        RoundingAscends(t, u);
      } else {
        FewerBelow(scores, u, t);
        NoScoreRoundsUp(pairs, scores, u);
      }
    }
  }

  lemma FewerBelow(scores: set<real>, u: real, t: real)
    requires u in scores && u < t
    ensures |Below(scores, u)| < |Below(scores, t)|
  {
    assert u in Below(scores, t) && u !in Below(scores, u);
    assert Below(scores, u) <= Below(scores, t);
    Fewer(Below(scores, u), Below(scores, t));
  }

  lemma Fewer(a: set<real>, b: set<real>)
    requires a < b
    ensures |a| < |b|
  {
    assert b == a + (b - a);
  }

  lemma OwnRoundingCuts(pairs: Pairs, scores: set<real>, s: real, t: real)
    requires scores == Scores(pairs) && GridReachesEveryCut(pairs)
    requires s in scores && t in scores && SameCut(scores, s, Round3(t))
    ensures Round3(t) == Round3(s)
  {
    hide Round3;
    CutBounds(scores, s, t, Round3(t));
    NoScoreRoundsUp(pairs, scores, t);
    RoundingOnce(t);
    RoundingAscends(s, if s <= t then t else s);
    RoundingAscends(Round3(t), s);
  }

  /** The grid loses no cut exactly when rounding is harmless. */
  lemma GridReachesEveryCutIff(pairs: Pairs)
    ensures GridReachesEveryCut(pairs) <==> RoundingIsHarmless(pairs)
  {
    hide Round3, SameCut, Scores;
    if GridReachesEveryCut(pairs) {
      forall s | s in Scores(pairs) ensures SameCut(Scores(pairs), s, Round3(s)) {
        assert Reached(pairs, s);
        var t :| t in Scores(pairs) && SameCut(Scores(pairs), s, Round3(t));
        OwnRoundingCuts(pairs, Scores(pairs), s, t);
      }
    } else {
      var s :| s in Scores(pairs) && !Reached(pairs, s);
    }
  }

  /** And where it is not, the best can be lost: a score of 0.9996 rounds past itself. */
  lemma RoundingCanLoseTheBest()
    ensures var pairs: Pairs := [(0.9996, true)];
      && IsSmallestFeasible(pairs, 1.0, 0.95, 0.0)
      && Recall(pairs, 1.0) == 0.0
      && Feasible(pairs, 0.9996, 0.95, 0.0) && Recall(pairs, 0.9996) == 1.0
  {
    var pairs: Pairs := [(0.9996, true)];
    assert Scores(pairs) == {0.9996} by {
      assert pairs[0] in pairs;
    }
    assert Round3(0.9996) == 1.0;
    assert TP(pairs, 1.0) == 0 && FP(pairs, 1.0) == 0 && TP(pairs, 0.9996) == 1 && FP(pairs, 0.9996) == 0;
    assert FN(pairs, 0.9996) == 0;
    assert 0.9996 in Scores(pairs);
  }
}
